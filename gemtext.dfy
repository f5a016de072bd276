/**
 * The Gemtext to HTML converter (scripts/gemtext2html.go): a line-by-line
 * state machine over two flags, `pre` (inside a preformatted block) and
 * `inList` (an unordered list has been opened and not yet closed). Each
 * input line produces one or two output lines. Input text is copied into
 * the output without HTML escaping.
 */
module Gemtext {
  import opened GoStrings

  const Fence := "```"

  datatype State = State(pre: bool, inList: bool)

  const Start := State(false, false)

  /** The state after some lines, with the output lines they produced. */
  datatype Emitted = Emitted(state: State, out: seq<string>)

  /** No converter rule claims this line: it becomes a paragraph. */
  predicate PlainLine(line: string) {
    line != "" && !HasPrefix(line, "#") && !HasPrefix(line, "=>") &&
    !HasPrefix(line, ">") && !HasPrefix(line, "*") && line != Fence
  }

  /** One pass of the converter's loop body: the rules are tried in the
      source's order, and the first that applies decides the output. */
  function Step(st: State, line: string): (r: Emitted)
    ensures 1 <= |r.out| <= 2
    ensures r.state.pre != st.pre <==> line == Fence
  {
    if st.pre then
      if line == Fence then Emitted(State(false, st.inList), ["</pre>"])
      else Emitted(st, [line])
    else if line == "" then
      if st.inList then Emitted(State(false, false), ["</ul>", "<br>"])
      else Emitted(st, ["<br>"])
    else if HasPrefix(line, "###") then
      assert line[0] == '#' && Fence[0] == '`';
      Emitted(st, ["<h3>" + Trim(line[3..]) + "</h3>"])
    else if HasPrefix(line, "##") then
      assert line[0] == '#' && Fence[0] == '`';
      Emitted(st, ["<h2>" + Trim(line[2..]) + "</h2>"])
    else if HasPrefix(line, "#") then
      assert line[0] == '#' && Fence[0] == '`';
      Emitted(st, ["<h1>" + Trim(line[1..]) + "</h1>"])
    else if HasPrefix(line, "=>") then
      assert line[0] == '=' && Fence[0] == '`';
      var c := Cut(Trim(line[2..]), ' ');
      Emitted(st, ["<a href=\"" + c.before + "\">" + c.after + "</a>"])
    else if HasPrefix(line, ">") then
      assert line[0] == '>' && Fence[0] == '`';
      Emitted(st, ["<blockquote>" + Trim(line[1..]) + "</blockquote>"])
    else if HasPrefix(line, "*") then
      assert line[0] == '*' && Fence[0] == '`';
      var item := "\t<li>" + Trim(line[1..]) + "</li>";
      if st.inList then Emitted(st, [item])
      else Emitted(State(false, true), ["<ul>", item])
    else if line == Fence then
      Emitted(State(true, st.inList), ["<pre>"])
    else
      Emitted(st, ["<p>" + line + "</p>"])
  }

  /** Feeds `lines` through the converter from state `st`; every input
      line yields one or two output lines. */
  function Run(st: State, lines: seq<string>): (r: Emitted)
    ensures |lines| <= |r.out| <= 2 * |lines|
    decreases lines
  {
    if lines == [] then Emitted(st, [])
    else
      var h := Step(st, lines[0]);
      var t := Run(h.state, lines[1..]);
      Emitted(t.state, h.out + t.out)
  }

  /** The converter's whole output for an input file given as lines. */
  function Convert(lines: seq<string>): (out: seq<string>)
    ensures |lines| <= |out| <= 2 * |lines|
  {
    Run(Start, lines).out
  }

  /** Running over two pieces of input in turn is running over both. */
  lemma {:induction false} RunAppend(st: State, a: seq<string>, b: seq<string>)
    ensures Run(st, a + b) ==
      var ra := Run(st, a);
      var rb := Run(ra.state, b);
      Emitted(rb.state, ra.out + rb.out)
    decreases a
  {
    if a == [] {
      assert a + b == b;
    } else {
      var h := Step(st, a[0]);
      assert (a + b)[0] == a[0];
      assert (a + b)[1..] == a[1..] + b;
      RunAppend(h.state, a[1..], b);
      var ra, rb := Run(h.state, a[1..]), Run(Run(h.state, a[1..]).state, b);
      assert h.out + (ra.out + rb.out) == (h.out + ra.out) + rb.out;
    }
  }

  /** The converter as the source writes it: one loop over the input lines
      that updates the two flags and appends to the output. */
  method ConvertLines(lines: seq<string>) returns (out: seq<string>)
    ensures out == Convert(lines)
    ensures |lines| <= |out| <= 2 * |lines|
  {
    var togglePre, inList := false, false;
    out := [];
    var i := 0;
    while i < |lines|
      invariant 0 <= i <= |lines|
      invariant Run(Start, lines[..i]) == Emitted(State(togglePre, inList), out)
    {
      var line := lines[i];
      ghost var h := Step(State(togglePre, inList), line);
      ghost var before := out;
      RunAppend(Start, lines[..i], [line]);
      assert Run(h.state, []) == Emitted(h.state, []);
      assert lines[..i + 1] == lines[..i] + [line];
      assert Run(Start, lines[..i + 1]) == Emitted(h.state, before + h.out);
      i := i + 1;
      if togglePre {
        if line == Fence {
          out := out + ["</pre>"];
          togglePre := !togglePre;
        } else {
          out := out + [line];
        }
        continue;
      }

      if line == "" {
        if inList {
          inList := false;
          out := out + ["</ul>"];
        }
        out := out + ["<br>"];
      } else if HasPrefix(line, "###") {
        out := out + ["<h3>" + Trim(line[3..]) + "</h3>"];
      } else if HasPrefix(line, "##") {
        out := out + ["<h2>" + Trim(line[2..]) + "</h2>"];
      } else if HasPrefix(line, "#") {
        out := out + ["<h1>" + Trim(line[1..]) + "</h1>"];
      } else if HasPrefix(line, "=>") {
        var c := Cut(Trim(line[2..]), ' ');
        out := out + ["<a href=\"" + c.before + "\">" + c.after + "</a>"];
      } else if HasPrefix(line, ">") {
        out := out + ["<blockquote>" + Trim(line[1..]) + "</blockquote>"];
      } else if HasPrefix(line, "*") {
        if !inList {
          inList := true;
          out := out + ["<ul>"];
        }
        out := out + ["\t<li>" + Trim(line[1..]) + "</li>"];
      } else if line == Fence {
        togglePre := !togglePre;
        out := out + ["<pre>"];
      } else {
        out := out + ["<p>" + line + "</p>"];
      }
    }
    assert lines[..i] == lines;
  }

  /** In pre mode every line except the fence is copied out unchanged and
      the state stays as it is; the fence closes the block. */
  lemma PreModeVerbatim(st: State, line: string)
    requires st.pre
    ensures line != Fence ==> Step(st, line) == Emitted(st, [line])
    ensures line == Fence ==> Step(st, line) == Emitted(State(false, st.inList), ["</pre>"])
  {
  }

  /** Outside pre mode the fence opens a block, and it is the only line
      that does. */
  lemma OpenPre(st: State, line: string)
    requires !st.pre
    ensures Step(st, line).state.pre <==> line == Fence
    ensures line == Fence ==> Step(st, line) == Emitted(State(true, st.inList), ["<pre>"])
  {
  }

  /** The number of leading '#' characters, which is the heading level
      when it is at most three. */
  function Hashes(line: string): (n: nat)
    ensures n <= |line|
    ensures forall k :: 0 <= k < n ==> line[k] == '#'
    ensures n < |line| ==> line[n] != '#'
  {
    if line == [] || line[0] != '#' then 0 else 1 + Hashes(line[1..])
  }

  /** A heading line: the level is the number of leading '#' capped at
      three, and the text is the rest of the line after those marks with
      spaces and tabs trimmed from both ends. */
  lemma Heading(st: State, line: string)
    requires !st.pre && HasPrefix(line, "#")
    ensures Hashes(line) >= 3 ==> Step(st, line) == Emitted(st, ["<h3>" + Trim(line[3..]) + "</h3>"])
    ensures Hashes(line) == 2 ==> Step(st, line) == Emitted(st, ["<h2>" + Trim(line[2..]) + "</h2>"])
    ensures Hashes(line) == 1 ==> Step(st, line) == Emitted(st, ["<h1>" + Trim(line[1..]) + "</h1>"])
  {
    assert line[0] == '#';
    var n := Hashes(line);
    if n >= 3 {
      assert line[1] == '#' && line[2] == '#';
      assert line[..3] == "###";
    } else if n == 2 {
      assert line[..2] == "##";
      assert |line| == 2 || line[2] != '#';
      assert !HasPrefix(line, "###");
    } else {
      assert |line| == 1 || line[1] != '#';
      assert !HasPrefix(line, "##") && !HasPrefix(line, "###");
    }
  }

  /** A link line: after "=>" and trimming, the text before the first space
      is the address and the rest is the label; without a space the label is
      empty. A link line is never rendered as a quote. */
  lemma Link(st: State, line: string)
    requires !st.pre && HasPrefix(line, "=>")
    ensures exists url: string, text: string ::
      Step(st, line) == Emitted(st, ["<a href=\"" + url + "\">" + text + "</a>"]) &&
      ' ' !in url &&
      (' ' in Trim(line[2..]) ==> Trim(line[2..]) == url + " " + text) &&
      (' ' !in Trim(line[2..]) ==> url == Trim(line[2..]) && text == "")
  {
    assert line[0] == '=';
    assert !HasPrefix(line, "#") && !HasPrefix(line, "##") && !HasPrefix(line, "###");
    var c := Cut(Trim(line[2..]), ' ');
    assert Step(st, line) == Emitted(st, ["<a href=\"" + c.before + "\">" + c.after + "</a>"]);
  }

  /** A quote line (one that starts with ">" and is not a link). */
  lemma Quote(st: State, line: string)
    requires !st.pre && HasPrefix(line, ">")
    ensures Step(st, line) == Emitted(st, ["<blockquote>" + Trim(line[1..]) + "</blockquote>"])
  {
    assert line[0] == '>';
    assert !HasPrefix(line, "#") && !HasPrefix(line, "##") && !HasPrefix(line, "###");
    assert !HasPrefix(line, "=>");
  }

  /** A list item opens the list first when none is open, and leaves a list
      open. */
  lemma ListItem(st: State, line: string)
    requires !st.pre && HasPrefix(line, "*")
    ensures var item := "\t<li>" + Trim(line[1..]) + "</li>";
      Step(st, line) == Emitted(State(false, true), if st.inList then [item] else ["<ul>", item])
  {
    assert line[0] == '*';
    assert !HasPrefix(line, "#") && !HasPrefix(line, "##") && !HasPrefix(line, "###");
    assert !HasPrefix(line, "=>") && !HasPrefix(line, ">");
  }

  /** An empty line closes an open list, then always emits a line break,
      and leaves no list open. */
  lemma BlankLine(st: State)
    requires !st.pre
    ensures Step(st, "") == Emitted(State(false, false),
                                    if st.inList then ["</ul>", "<br>"] else ["<br>"])
  {
  }

  /** A line that no rule claims becomes an untrimmed paragraph. */
  lemma Paragraph(st: State, line: string)
    requires !st.pre && PlainLine(line)
    ensures Step(st, line) == Emitted(st, ["<p>" + line + "</p>"])
  {
  }

  /** Only an empty line outside pre mode closes a list, and only a list
      item outside pre mode opens one. */
  lemma ListFlag(st: State, line: string)
    ensures st.inList && !Step(st, line).state.inList ==> !st.pre && line == ""
    ensures !st.inList && Step(st, line).state.inList ==> !st.pre && HasPrefix(line, "*")
  {
  }

  /** The number of fence lines in `lines`. */
  function Fences(lines: seq<string>): nat {
    if lines == [] then 0 else (if lines[0] == Fence then 1 else 0) + Fences(lines[1..])
  }

  /** After any input the converter is in pre mode exactly when it started
      in pre mode an even number of fences ago, or outside it an odd number
      ago. */
  lemma {:induction false} PreParity(st: State, lines: seq<string>)
    ensures Run(st, lines).state.pre == (st.pre != (Fences(lines) % 2 == 1))
    decreases lines
  {
    if lines != [] {
      PreParity(Step(st, lines[0]).state, lines[1..]);
    }
  }

  /** A conversion ends outside a preformatted block exactly when the input
      holds an even number of fence lines. */
  lemma {:induction false} ConvertEndsOutsidePre(lines: seq<string>)
    ensures !Run(Start, lines).state.pre <==> Fences(lines) % 2 == 0
  {
    PreParity(Start, lines);
  }
}
