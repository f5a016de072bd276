/**
 * `addPost` in scripts/indexPosts.go: the post record derived from a file
 * name such as `2023-01-15-my-first-post.html` and from the parsed page.
 * The link is the name without its five-character suffix, the date its
 * first ten characters, the title the dash-separated fields of the link
 * after the first three, joined with spaces; the summary is the text of
 * the page's first `abstract` div.
 *
 * The slicing in the source panics on names that are too short; those
 * panics are modelled as an outcome. Opening, reading and parsing the file
 * are not modelled: the parsed tree is an input. The database insert is not
 * modelled either; whether it fails is an input, since its error is what
 * `addPost` returns.
 */
module Posts {
  import opened GoStrings
  import opened Html

  /** The row `addPost` inserts: `created_at` and `updated_at` both take the
      date, and the author is looked up by this user name. */
  datatype Post = Post(link: string, title: string, author: string, summary: string, date: string)

  /** The slice expressions that panic, in the order they are evaluated. */
  datatype Panic =
    | NameShorterThanSuffix   // `nom[:len(nom)-5]`
    | TooFewTitleFields       // `strings.Split(...)[3:]`
    | NameShorterThanDate     // `nom[:10]`

  datatype Outcome =
    | Panicked(cause: Panic)
    | Skipped                                          // no abstract: nothing inserted
    | Submitted(post: Post, logged: string, failed: bool)
                                                       // the insert was issued; `logged` is
                                                       // the summary as printed to the log

  const SuffixLength := 5
  const DateLength := 10
  const SummaryLimit := 80
  const Ellipsis := "..."

  /** The link: the file name without its last five characters. */
  function Link(name: string): (r: string)
    requires |name| >= SuffixLength
    ensures r + name[|name| - SuffixLength..] == name
  {
    name[..|name| - SuffixLength]
  }

  /** A name ending in ".html" links to its stem. */
  lemma {:induction false} LinkOfHtml(stem: string)
    ensures Link(stem + ".html") == stem
  {
    assert (stem + ".html")[..|stem|] == stem;
  }

  /** The date: the first ten characters of the file name. */
  function Date(name: string): (r: string)
    requires |name| >= DateLength
    ensures |r| == DateLength && r <= name
  {
    name[..DateLength]
  }

  /** The title: the dash-separated fields of the link after the first three,
      joined with single spaces. */
  function Title(link: string): (r: string)
    requires |Split(link, '-')| >= 3
    ensures '-' !in r
  {
    var words := Split(link, '-')[3..];
    assert forall j :: 0 <= j < |words| ==> words[j] == Split(link, '-')[j + 3];
    JoinAvoids(words, " ", '-');
    Join(words, " ")
  }

  /** The title exists exactly when the link has at least two dashes (three
      fields; with exactly two the title is empty). */
  lemma {:induction false} TitleDefined(link: string)
    ensures |Split(link, '-')| >= 3 <==> Count(link, '-') >= 2
  {
    SplitCount(link, '-');
  }

  lemma {:induction false} CutAtFirst(a: string, sep: char, b: string)
    requires sep !in a
    ensures Cut(a + [sep] + b, sep) == CutResult(a, b, true)
  {
    if a != [] {
      assert (a + [sep] + b)[1..] == a[1..] + [sep] + b;
      CutAtFirst(a[1..], sep, b);
    }
  }

  lemma {:induction false} SplitAtFirst(a: string, b: string)
    requires '-' !in a
    ensures Split(a + "-" + b, '-') == [a] + Split(b, '-')
  {
    CutAtFirst(a, '-', b);
  }

  lemma {:induction false} SplitThree(y: string, m: string, d: string, rest: string)
    requires '-' !in y && '-' !in m && '-' !in d
    ensures Split(y + "-" + m + "-" + d + "-" + rest, '-') == [y, m, d] + Split(rest, '-')
  {
    var l3 := d + "-" + rest;
    var l2 := m + "-" + l3;
    assert y + "-" + m + "-" + d + "-" + rest == y + "-" + l2;
    SplitAtFirst(y, l2);
    SplitAtFirst(m, l3);
    SplitAtFirst(d, rest);
  }

  /** For a link `y-m-d-rest` whose first three fields hold no dash, the
      title is `rest` with every dash turned into a space. */
  lemma {:induction false} TitleOfLink(y: string, m: string, d: string, rest: string)
    requires '-' !in y && '-' !in m && '-' !in d
    ensures |Split(y + "-" + m + "-" + d + "-" + rest, '-')| >= 3
    ensures Title(y + "-" + m + "-" + d + "-" + rest) == Replace(rest, '-', ' ')
  {
    var l := y + "-" + m + "-" + d + "-" + rest;
    SplitThree(y, m, d, rest);
    assert Split(l, '-')[3..] == Split(rest, '-');
    JoinSplitReplaces(rest, '-', ' ');
  }

  /** A link of exactly three fields has the empty title. */
  lemma {:induction false} TitleOfDateOnly(y: string, m: string, d: string)
    requires '-' !in y && '-' !in m && '-' !in d
    ensures |Split(y + "-" + m + "-" + d, '-')| == 3
    ensures Title(y + "-" + m + "-" + d) == ""
  {
    var l2 := m + "-" + d;
    var l1 := y + "-" + l2;
    assert y + "-" + m + "-" + d == l1;
    SplitAtFirst(y, l2);
    SplitAtFirst(m, d);
    assert Cut(d, '-') == CutResult(d, [], false);
    assert Split(l1, '-') == [y, m, d];
  }

  /** The summary as logged: at most 80 characters are kept, and "..." marks
      a cut. */
  function Truncate(s: string): (r: string)
    ensures |r| <= SummaryLimit + |Ellipsis|
    ensures |s| <= SummaryLimit ==> r == s
    ensures |s| > SummaryLimit ==>
      |r| == SummaryLimit + |Ellipsis| && r[..SummaryLimit] == s[..SummaryLimit] && r[SummaryLimit..] == Ellipsis
  {
    if |s| > SummaryLimit then s[..SummaryLimit] + Ellipsis else s
  }

  /** Truncating twice is truncating once: a truncated summary is 83
      characters long, and truncating it again gives it back. */
  lemma {:induction false} TruncateIdempotent(s: string)
    ensures Truncate(Truncate(s)) == Truncate(s)
  {
    if |s| > SummaryLimit {
      var r := Truncate(s);
      assert r[..SummaryLimit] + Ellipsis == r;
    }
  }

  /** The file names `addPost` accepts without panicking: ten characters at
      least, and a link with at least two dashes. */
  predicate WellFormedName(name: string) {
    |name| >= DateLength && Count(Link(name), '-') >= 2
  }

  /** What `addPost` does with file `name`, whose parsed page is `doc`, when
      the insert fails exactly if `insertFails`. */
  function PostOutcome(name: string, author: string, doc: Node, insertFails: bool): (r: Outcome)
    ensures r.Panicked? <==> !WellFormedName(name)
    ensures r.Skipped? <==> WellFormedName(name) && Find(doc, "abstract").None?
    ensures r.Submitted? ==>
      r.post.link + name[|name| - SuffixLength..] == name && r.post.date == name[..DateLength] &&
      r.post.author == author && r.logged == Truncate(r.post.summary) && r.failed == insertFails
    ensures r.Submitted? ==> |Split(r.post.link, '-')| >= 3 && r.post.title == Title(r.post.link)
  {
    if |name| < SuffixLength then Panicked(NameShorterThanSuffix)
    else
      var link := Link(name);
      TitleDefined(link);
      if |Split(link, '-')| < 3 then Panicked(TooFewTitleFields)
      else if |name| < DateLength then Panicked(NameShorterThanDate)
      else match Find(doc, "abstract")
        case None => Skipped
        case Some(m) =>
          Submitted(Post(link, Title(link), author, TextOf(m), Date(name)), Truncate(TextOf(m)), insertFails)
  }

  /** `addPost` as the source writes it: the slices, the search for the
      abstract, then the text extracted once for the row and once more for
      the log line, which is cut to 80 characters. */
  method AddPost(name: string, author: string, doc: Node, insertFails: bool) returns (r: Outcome)
    ensures r == PostOutcome(name, author, doc, insertFails)
  {
    if |name| < SuffixLength {
      return Panicked(NameShorterThanSuffix);
    }
    var link := name[..|name| - SuffixLength];
    var fields := Split(link, '-');
    if |fields| < 3 {
      return Panicked(TooFewTitleFields);
    }
    var title := Join(fields[3..], " ");
    if |name| < DateLength {
      return Panicked(NameShorterThanDate);
    }
    var date := name[..DateLength];
    var summary := FindNodeByClass(doc, "abstract");
    if summary.None? {
      return Skipped;
    }
    var text := ExtractText(summary.value);
    var summ := ExtractText(summary.value);
    if |summ| > SummaryLimit {
      summ := summ[..SummaryLimit] + Ellipsis;
    }
    return Submitted(Post(link, title, author, text, date), summ, insertFails);
  }

  /** No post is produced for a well-formed name exactly when no `div` of the
      page has the class `abstract`. */
  lemma {:induction false} SkippedWithoutAbstract(name: string, author: string, doc: Node, insertFails: bool)
    requires WellFormedName(name)
    ensures PostOutcome(name, author, doc, insertFails).Skipped? <==>
      forall k :: 0 <= k < |PreOrder(doc)| ==> !IsClassDiv(PreOrder(doc)[k], "abstract")
  {
    FindResult(doc, "abstract");
  }

  /** The summary stored is the text of the first `abstract` div of the page
      in document order, and it keeps every non-white-space character of the
      text inside that div. */
  lemma {:induction false} SummaryOfFirstAbstract(name: string, author: string, doc: Node, insertFails: bool)
    requires PostOutcome(name, author, doc, insertFails).Submitted?
    ensures exists k :: (0 <= k < |PreOrder(doc)| && IsClassDiv(PreOrder(doc)[k], "abstract") &&
      (forall j :: 0 <= j < k ==> !IsClassDiv(PreOrder(doc)[j], "abstract")) &&
      PostOutcome(name, author, doc, insertFails).post.summary == TextOf(PreOrder(doc)[k]) &&
      StripSpace(PostOutcome(name, author, doc, insertFails).post.summary) == StripSpace(DocText(PreOrder(doc)[k])))
  {
    var m := Find(doc, "abstract").value;
    FindIsFirstInPreOrder(doc, "abstract");
    TextOfKeepsText(m);
  }

  /** The link and date of a name `date-rest.html` with a ten-character
      `date`. */
  lemma {:induction false} LinkAndDate(date: string, rest: string)
    requires |date| == DateLength
    ensures |date + "-" + rest + ".html"| >= DateLength
    ensures Link(date + "-" + rest + ".html") == date + "-" + rest
    ensures Date(date + "-" + rest + ".html") == date
  {
    var stem := date + "-" + rest;
    LinkOfHtml(stem);
    assert stem + ".html" == date + ("-" + rest + ".html");
  }

  /** A post named `date-rest.html`, where `date` is `y-m-d` and ten
      characters long, is stored under link `date-rest` and date `date`,
      titled `rest` with its dashes turned to spaces. */
  lemma {:induction false} PostOfName(y: string, m: string, d: string, rest: string, author: string, doc: Node, insertFails: bool)
    requires '-' !in y && '-' !in m && '-' !in d
    requires |y + "-" + m + "-" + d| == DateLength
    ensures var o := PostOutcome(y + "-" + m + "-" + d + "-" + rest + ".html", author, doc, insertFails);
      !o.Panicked? &&
      (o.Submitted? ==>
         o.post.link == y + "-" + m + "-" + d + "-" + rest &&
         o.post.date == y + "-" + m + "-" + d && o.post.title == Replace(rest, '-', ' '))
  {
    var date := y + "-" + m + "-" + d;
    var stem := date + "-" + rest;
    assert y + "-" + m + "-" + d + "-" + rest == stem;
    LinkAndDate(date, rest);
    TitleOfLink(y, m, d, rest);
    TitleDefined(stem);
  }
}
