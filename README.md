# Gemtext conversion and post indexing, modelled in Dafny

This project models two helper programs of a small Go web site. Both live in
its `scripts/` directory.

- **`gemtext2html.go`** turns a Gemtext page into HTML, one input line at a
  time. It is a state machine over two flags:
  - `togglePre`: inside a preformatted block;
  - `inList`: an unordered list is open.

  Each line becomes one or two HTML lines.
  - In a preformatted block, lines are copied verbatim until a fence line ("```").
  - Outside it, the first rule that matches decides the output. The rules are tried in this order:
    1. the empty line;
    2. `###`, `##` and `#` headings;
    3. `=>` links;
    4. `>` quotes;
    5. `*` list items;
    6. the fence;
    7. anything else becomes a paragraph.
- **`indexPosts.go`** builds one database row per post. From the file name it
  takes:
  - the link: the name without its last five characters;
  - the date: the first ten characters;
  - the title: the dash-separated fields of the link after the first three, joined with spaces.

  From the parsed page, it finds the first `div` whose `class` list holds
  `abstract` (`findNodeByClass`) and takes its text (`extractText`) as the
  summary. The log line shows the summary as is when it has at most 80 characters. A longer summary is cut to its first 80 characters plus "...".

The Dafny files follow that structure:

- `gostrings.dfy`, module `GoStrings`: the parts of Go's `strings` package
  the scripts use. These are `Trim` with the cut set " \t", `TrimSpace`,
  `Fields`, `Cut`, `Split`, `Join` and `HasPrefix`. White space is
  `unicode.IsSpace`. The lemmas state what a trim keeps and what it drops.
  They also show that every field is a maximal run of
  non-white-space characters and every such run is a field, and that
  splitting then joining restores or replaces the separators.
  These functions have no rows of their own; the lemma rows state them.
  `Trim` and `TrimSpace` are fixed by `TrimFuncSpec`, `Fields` by
  `FieldsAreWords`, `FieldsCover` and `FieldsAreMaximalRuns`, and `Join`
  with `Split` by `JoinSplit`. `HasPrefix` is its definition: the prefix
  is no longer than the string and equals its first characters.
- `gemtext.dfy`, module `Gemtext`:
  - `Step` is one iteration of the loop, and `Run`/`Convert` are the whole
    conversion.
  - `ConvertLines` is the loop as the source writes it: it updates the two
    flags and appends to the output. It is proved equal to `Convert`.
  - The lemmas state each rule's output and the precedence between rules.
    They also bound the output length and relate the final pre-mode flag to
    the number of fences.
- `html.dfy`, module `Html`:
  - The parsed tree is a datatype: text, element or other node, with the
    sibling chain as a sequence of children.
  - `ExtractText` and `FindNodeByClass` are the source's loops with their
    recursion. They are proved equal to the functions `TextOf` and `Find`.
  - `Find` is shown to return the first matching `div` in document order.
  - `TextOf` is shown to keep every non-white-space character of the text
    under the node.
- `posts.dfy`, module `Posts`:
  - `AddPost` is `addPost` from the source, with its slicing panics as
    outcomes. It is proved equal to the function `PostOutcome`.
  - The lemmas state which names panic, when nothing is inserted and which
    text becomes the summary.
  - For names of the form `yyyy-mm-dd-words.html`, they give the exact link,
    date and title.

Some behaviour of the code follows from these definitions without being a rule of the format:

- A title needs only two dashes in the link, not three. With exactly two, the title is empty (`Posts.TitleOfDateOnly`). Fewer than two make `strings.Split(...)[3:]` panic.
- A list is closed only by an empty line. A list still open at the end of the input, or when a fence opens a preformatted block, stays unclosed.
- `extractText` trims the text of every nested element before joining it to the rest, not only the final result. White space at the edges of inner elements disappears. `Html.TextOfKeepsText` states that every non-white-space character survives, in document order. `Html.TextOfTidy` states the white space: when no nested element's text starts or ends with white space, the extracted text is the subtree's text trimmed at both ends, inner white space included.
- Only the log line gets the truncated summary. The row stores the whole extracted text.

## Model

| member | source | states |
|---|---|---|
| Gemtext.Step | scripts/gemtext2html.go:16-53 | one line yields one or two output lines, and the pre-mode flag flips exactly on a fence line |
| Gemtext.ConvertLines | scripts/gemtext2html.go:11-55 | the source's loop over the input lines, with its two flags and `continue`, outputs exactly `Convert(lines)`, between n and 2n lines for n input lines |
| Gemtext.RunAppend | scripts/gemtext2html.go:14-15 | converting two pieces of input one after the other equals converting their concatenation, with the state carried across |
| Gemtext.Run | scripts/gemtext2html.go:14-55 | feeding n lines through the converter from any state gives between n and 2n output lines |
| Gemtext.Convert | scripts/gemtext2html.go:12-55 | the whole conversion from the starting state (no list, not in pre mode) of n lines gives between n and 2n output lines |
| Gemtext.PreModeVerbatim | scripts/gemtext2html.go:16-24 | in pre mode a non-fence line is emitted verbatim and changes no flag; the fence emits "</pre>" and leaves pre mode, keeping the list flag |
| Gemtext.OpenPre | scripts/gemtext2html.go:49-51 | outside pre mode, a line enters pre mode iff it is the fence, which emits "<pre>" |
| Gemtext.Heading | scripts/gemtext2html.go:32-37 | three or more leading '#' give `<h3>`, exactly two `<h2>`, exactly one `<h1>`; the content is the rest of the line after its first three, two or one characters, trimmed of spaces and tabs (so `####x` gives `<h3>#x</h3>`) |
| Gemtext.Link | scripts/gemtext2html.go:38-40 | after "=>" and trimming, the address is the text before the first space and the label is the rest; with no space, the label is empty; the line is never a quote |
| Gemtext.Quote | scripts/gemtext2html.go:41-42 | a ">" line that is not a link becomes a blockquote of its trimmed rest |
| Gemtext.ListItem | scripts/gemtext2html.go:43-48 | a "*" line emits "<ul>" first exactly when no list is open, then its `<li>`, and leaves a list open |
| Gemtext.BlankLine | scripts/gemtext2html.go:26-31 | outside pre mode an empty line emits "</ul>" exactly when a list is open, then "<br>", and leaves no list open |
| Gemtext.Paragraph | scripts/gemtext2html.go:52-53 | a line no rule claims becomes `<p>line</p>`, untrimmed |
| Gemtext.ListFlag | scripts/gemtext2html.go:26-48 | only an empty line outside pre mode clears the list flag, and only a "*" line outside pre mode sets it |
| Gemtext.PreParity | scripts/gemtext2html.go:16-51 | after any input the pre-mode flag equals the starting flag toggled once per fence line |
| Gemtext.ConvertEndsOutsidePre | scripts/gemtext2html.go:14-55 | a conversion ends outside a preformatted block iff the input has an even number of fence lines |
| GoStrings.TrimFuncSpec | scripts/gemtext2html.go:33 | a trim leaves a piece of the input with no cut-set character at either end, and only cut-set characters before and after it |
| GoStrings.StripSpaceTrimSpace | scripts/indexPosts.go:84 | `TrimSpace` removes only white space |
| GoStrings.FieldsAreWords | scripts/indexPosts.go:91 | every field is non-empty and holds no white space |
| GoStrings.FieldsCover | scripts/indexPosts.go:91 | the fields, concatenated, are exactly the non-white-space characters of the value, in order |
| GoStrings.FieldsAreMaximalRuns | scripts/indexPosts.go:91 | a string is a field of the value iff it is a maximal run of it: a non-empty white-space-free slice with white space or an end of the value on each side |
| GoStrings.FieldPosition | scripts/indexPosts.go:91 | every field lies in the value as such a maximal run |
| GoStrings.RunIsField | scripts/indexPosts.go:91 | every such maximal run of the value is one of its fields |
| GoStrings.Cut | scripts/gemtext2html.go:39 | with the separator found, the input is before + separator + after, and before holds no separator; otherwise before is the whole input and after is empty |
| GoStrings.Split | scripts/indexPosts.go:36 | a split gives at least one piece and no piece holds the separator |
| GoStrings.SplitCount | scripts/indexPosts.go:36 | a split gives one more piece than there are separators |
| GoStrings.JoinSplit | scripts/indexPosts.go:36 | joining the pieces of a split with the separator restores the string |
| GoStrings.JoinSplitReplaces | scripts/indexPosts.go:36 | joining the pieces of a split with another character replaces every separator by it |
| Html.ExtractText | scripts/indexPosts.go:75-85 | the source's loop over the children, recursing into non-text children, returns `TextOf(n)` |
| Html.TextOf | scripts/indexPosts.go:84 | the extracted text has no white space at either end |
| Html.TextOfKeepsText | scripts/indexPosts.go:75-85 | the non-white-space characters of the extracted text are exactly those of the text nodes under the node, in document order |
| Html.PiecesKeepText | scripts/indexPosts.go:77-83 | the same for the text gathered from the first k children |
| Html.TextOfTidy | scripts/indexPosts.go:75-85 | when no element below the node has text with white space at its edges, the extracted text is all the text under the node, in document order, with only its two ends trimmed |
| Html.PiecesTidy | scripts/indexPosts.go:77-83 | under the same condition, the text gathered from the first k children is their text as it is in the tree |
| Html.TextOfFlat | scripts/indexPosts.go:75-85 | a node whose children are all text nodes yields their data, concatenated and trimmed at both ends |
| Html.FindNodeByClass | scripts/indexPosts.go:87-107 | the source's nested loops with early return and the recursive search of the children return `Find(n, className)` |
| Html.Find | scripts/indexPosts.go:88-99 | whatever is found is a `div` element with a `class` attribute whose fields include the name |
| Html.FindAmong | scripts/indexPosts.go:100-106 | whatever the search of the children finds is such a `div` |
| Html.FindIsFirstInPreOrder | scripts/indexPosts.go:87-107 | the search returns the first matching node of the subtree in pre-order, and nothing when none matches |
| Html.FindAmongIsFirst | scripts/indexPosts.go:100-106 | the children are searched in order, each subtree in pre-order |
| Html.FirstMatch | scripts/indexPosts.go:87-107 | nothing is found iff no node of the list matches; otherwise the match is the earliest matching node |
| Html.FindResult | scripts/indexPosts.go:88-106 | nothing is returned iff no node of the subtree matches; a node returned is in the subtree and is a `div` element |
| Html.NothingHasEmptyClass | scripts/indexPosts.go:90-94 | no node is ever found for the empty class name, since fields are never empty |
| Posts.Title | scripts/indexPosts.go:36 | the title, the link's dash-separated fields after the first three joined with spaces, holds no dash |
| Posts.Link | scripts/indexPosts.go:61 | the link followed by the name's last five characters is the name |
| Posts.LinkOfHtml | scripts/indexPosts.go:61 | the link of `stem.html` is `stem` |
| Posts.Date | scripts/indexPosts.go:37 | the date is the ten-character prefix of the name |
| Posts.TitleDefined | scripts/indexPosts.go:36 | the title's `[3:]` slice is in range iff the link has at least two dashes |
| Posts.TitleOfLink | scripts/indexPosts.go:36 | the title of `y-m-d-rest`, where y, m and d hold no dash, is `rest` with every dash turned into a space |
| Posts.TitleOfDateOnly | scripts/indexPosts.go:36 | the title of a link with exactly three fields is empty |
| Posts.Truncate | scripts/indexPosts.go:67-70 | the logged summary has at most 83 characters; a summary of at most 80 characters is unchanged; a longer one becomes its first 80 characters followed by "..." |
| Posts.TruncateIdempotent | scripts/indexPosts.go:67-70 | truncating a truncated summary changes nothing |
| Posts.PostOutcome | scripts/indexPosts.go:34-73 | `addPost` panics iff the name is shorter than ten characters or its link has fewer than two dashes; it inserts nothing iff the name is well formed and no abstract div is found; a submitted row has the link, date, author and title derived from the name, and its logged summary is the row's summary truncated |
| Posts.AddPost | scripts/indexPosts.go:34-73 | the source's statement sequence, with the slices, the search and the two text extractions, yields `PostOutcome` |
| Posts.SkippedWithoutAbstract | scripts/indexPosts.go:54-57 | for a well-formed name, no row is produced iff no node of the page is a `div` with class `abstract` |
| Posts.SummaryOfFirstAbstract | scripts/indexPosts.go:54-64 | the stored summary is the extracted text of the first abstract div in document order, and it keeps every non-white-space character of the text inside that div |
| Posts.LinkAndDate | scripts/indexPosts.go:36-37 | the name `date-rest.html` with a ten-character date has link `date-rest` and date `date` |
| Posts.PostOfName | scripts/indexPosts.go:35-37 | a name `y-m-d-rest.html` with a ten-character date never panics, and a row for it has link `y-m-d-rest`, date `y-m-d` and title `rest` with dashes as spaces |

## Left out

- Standard input and output: the converter takes its input as a sequence of lines and returns a sequence of output lines. `bufio.Scanner` is not modelled, and neither is its line splitting (which also drops a trailing "\r"), its 64 KiB line limit or its error report after the loop (scripts/gemtext2html.go:57-59).
- Bytes versus characters: Go's `len`, slicing and `strings` functions work on UTF-8 bytes. The model works on characters. The two agree on ASCII names and text. On other input, the five-character suffix, the ten-character date and the 80-character cut are byte counts in the source, and the source's cut can split a multi-byte character.
- `html.Parse`, opening and reading the post file, and the panics on their errors: the parsed tree is an input of `AddPost`.
- The database insert (`pool.Exec`): it is not modelled. Whether it fails is an input, returned as the outcome's `failed` flag. The author's id comes from a subquery on the user name; the row records the user name instead.
- Logging: the log line is represented only by the truncated summary it prints.
- `main` in scripts/indexPosts.go (connecting to the database, listing the directory, the loop that panics on the first error): it is I/O around `addPost`.
- Node identity: the source returns a pointer into the tree, and the model returns the subtree itself. Attribute namespaces and node kinds other than text and element are not distinguished; they only contribute their children.
- `GoStrings.Cut`, `GoStrings.Split`: these cover only the one-character separators the scripts use.
- content/db.go, users/loggedInUsers.go, users/userCrud.go, scripts/sendMail.go and main.go are storage, authentication, mail and HTTP plumbing. They are not part of this model.
