/**
 * The parts of Go's `strings` package that the site's scripts rely on,
 * stated over `string` (a sequence of characters): prefix tests, trimming
 * with a cut set or with white space, splitting on white space (`Fields`),
 * splitting on a separator and joining (`Split`, `Join`), and cutting at the
 * first separator (`Cut`).
 *
 * The trimming functions carry only light contracts so that their bodies
 * stay cheap wherever they are unfolded; what they compute is stated by the
 * lemmas beside them.
 */
module GoStrings {

  /** Go's `unicode.IsSpace`: the ASCII white space, NEL, NO-BREAK SPACE and
      the other characters of Unicode's White_Space property. */
  predicate IsSpace(c: char) {
    c in SpaceChars
  }

  const SpaceChars: set<char> := {
    '\t', '\n', '\U{000B}', '\U{000C}', '\r', ' ', '\U{0085}', '\U{00A0}', '\U{1680}',
    '\U{2000}', '\U{2001}', '\U{2002}', '\U{2003}', '\U{2004}', '\U{2005}', '\U{2006}',
    '\U{2007}', '\U{2008}', '\U{2009}', '\U{200A}',
    '\U{2028}', '\U{2029}', '\U{202F}', '\U{205F}', '\U{3000}'
  }

  /** The characters a trim removes: the cut set " \t" that the Gemtext
      converter passes to `strings.Trim`, or white space for
      `strings.TrimSpace`. */
  datatype CharClass = SpaceTab | WhiteSpace {
    predicate Has(c: char) {
      if SpaceTab? then c == ' ' || c == '\t' else IsSpace(c)
    }
  }

  /** Go's `strings.HasPrefix`. */
  predicate HasPrefix(s: string, prefix: string) {
    |prefix| <= |s| && s[..|prefix|] == prefix
  }

  predicate NoneIn(s: string, cls: CharClass) {
    forall k :: 0 <= k < |s| ==> !cls.Has(s[k])
  }

  /** The number of leading characters of `s` in `cls`. */
  function Lead(s: string, cls: CharClass): (n: nat)
    ensures n <= |s|
  {
    if s == [] || !cls.Has(s[0]) then 0 else 1 + Lead(s[1..], cls)
  }

  lemma {:induction false} LeadSpec(s: string, cls: CharClass)
    ensures forall k :: 0 <= k < Lead(s, cls) ==> cls.Has(s[k])
    ensures Lead(s, cls) < |s| ==> !cls.Has(s[Lead(s, cls)])
  {
    if s != [] && cls.Has(s[0]) {
      LeadSpec(s[1..], cls);
    }
  }

  /** The number of trailing characters of `s` in `cls`. */
  function Trail(s: string, cls: CharClass): (n: nat)
    ensures n <= |s|
  {
    if s == [] || !cls.Has(s[|s| - 1]) then 0 else 1 + Trail(s[..|s| - 1], cls)
  }

  lemma {:induction false} TrailSpec(s: string, cls: CharClass)
    ensures forall k :: |s| - Trail(s, cls) <= k < |s| ==> cls.Has(s[k])
    ensures Trail(s, cls) < |s| ==> !cls.Has(s[|s| - Trail(s, cls) - 1])
  {
    if s != [] && cls.Has(s[|s| - 1]) {
      TrailSpec(s[..|s| - 1], cls);
    }
  }

  /** Go's `strings.TrimFunc`: removes the characters in `cls` from both
      ends of `s`. */
  function TrimFunc(s: string, cls: CharClass): (r: string)
    ensures |r| <= |s|
  {
    var t := s[Lead(s, cls)..];
    t[..|t| - Trail(t, cls)]
  }

  /** What a trim leaves: the piece of `s` that starts right after the
      removed prefix, with no removable character at either end, and only
      removable characters before and after it. */
  lemma {:induction false} TrimFuncSpec(s: string, cls: CharClass)
    ensures TrimFunc(s, cls) == [] ||
      (!cls.Has(TrimFunc(s, cls)[0]) && !cls.Has(TrimFunc(s, cls)[|TrimFunc(s, cls)| - 1]))
    ensures Lead(s, cls) + |TrimFunc(s, cls)| <= |s|
    ensures TrimFunc(s, cls) == s[Lead(s, cls)..Lead(s, cls) + |TrimFunc(s, cls)|]
    ensures forall k :: 0 <= k < Lead(s, cls) ==> cls.Has(s[k])
    ensures forall k :: Lead(s, cls) + |TrimFunc(s, cls)| <= k < |s| ==> cls.Has(s[k])
  {
    LeadSpec(s, cls);
    TrimKeepsEnds(s, cls);
    TrimDropsTail(s, cls);
  }

  lemma {:induction false} TrimKeepsEnds(s: string, cls: CharClass)
    ensures TrimFunc(s, cls) == [] ||
      (!cls.Has(TrimFunc(s, cls)[0]) && !cls.Has(TrimFunc(s, cls)[|TrimFunc(s, cls)| - 1]))
    ensures TrimFunc(s, cls) == s[Lead(s, cls)..Lead(s, cls) + |TrimFunc(s, cls)|]
  {
    var i := Lead(s, cls);
    var t := s[i..];
    var r := TrimFunc(s, cls);
    LeadSpec(s, cls);
    TrailSpec(t, cls);
    if r != [] {
      assert r[0] == s[i];
      assert r[|r| - 1] == t[|t| - Trail(t, cls) - 1];
    }
  }

  lemma {:induction false} TrimDropsTail(s: string, cls: CharClass)
    ensures forall k :: Lead(s, cls) + |TrimFunc(s, cls)| <= k < |s| ==> cls.Has(s[k])
  {
    var i := Lead(s, cls);
    var t := s[i..];
    var j := |TrimFunc(s, cls)|;
    TrailSpec(t, cls);
    forall k | i + j <= k < |s|
      ensures cls.Has(s[k])
    {
      assert s[k] == t[k - i];
    }
  }

  /** `strings.Trim(s, " \t")`. */
  function Trim(s: string): string {
    TrimFunc(s, SpaceTab)
  }

  /** `strings.TrimSpace(s)`. */
  function TrimSpace(s: string): string {
    TrimFunc(s, WhiteSpace)
  }

  /** Every character of `s` that is not white space, in order. */
  function StripSpace(s: string): (r: string)
    ensures |r| <= |s|
  {
    if s == [] then []
    else if IsSpace(s[0]) then StripSpace(s[1..])
    else [s[0]] + StripSpace(s[1..])
  }

  lemma {:induction false} StripSpaceAppend(a: string, b: string)
    ensures StripSpace(a + b) == StripSpace(a) + StripSpace(b)
  {
    if a == [] {
      assert a + b == b;
    } else {
      assert (a + b)[1..] == a[1..] + b;
      StripSpaceAppend(a[1..], b);
    }
  }

  lemma {:induction false} StripSpaceOfSpaces(s: string)
    requires forall k :: 0 <= k < |s| ==> IsSpace(s[k])
    ensures StripSpace(s) == []
  {
    if s != [] {
      StripSpaceOfSpaces(s[1..]);
    }
  }

  lemma {:induction false} StripSpaceOfNoSpace(s: string)
    requires NoneIn(s, WhiteSpace)
    ensures StripSpace(s) == s
  {
    if s != [] {
      StripSpaceOfNoSpace(s[1..]);
    }
  }

  lemma {:induction false} StripSpaceSplit(s: string, i: nat)
    requires i <= |s|
    ensures StripSpace(s) == StripSpace(s[..i]) + StripSpace(s[i..])
  {
    assert s == s[..i] + s[i..];
    StripSpaceAppend(s[..i], s[i..]);
  }

  /** Trimming white space removes only white space. */
  lemma {:induction false} StripSpaceTrimSpace(s: string)
    ensures StripSpace(TrimSpace(s)) == StripSpace(s)
  {
    TrimFuncSpec(s, WhiteSpace);
    var i := Lead(s, WhiteSpace);
    var j := i + |TrimSpace(s)|;
    var t := s[i..];
    StripSpaceSplit(s, i);
    StripSpaceSplit(t, j - i);
    assert t[..j - i] == TrimSpace(s);
    StripSpaceOfSpaces(s[..i]);
    StripSpaceOfSpaces(t[j - i..]);
  }

  /** The longest prefix of `s` that holds no white space. */
  function Word(s: string): (r: string)
    ensures r <= s
    ensures NoneIn(r, WhiteSpace)
    ensures |r| < |s| ==> IsSpace(s[|r|])
  {
    if s == [] || IsSpace(s[0]) then [] else [s[0]] + Word(s[1..])
  }

  /** Go's `strings.Fields`: the maximal runs of non-white-space characters. */
  function Fields(s: string): seq<string>
    decreases |s|
  {
    if s == [] then []
    else if IsSpace(s[0]) then Fields(s[1..])
    else
      var w := Word(s);
      [w] + Fields(s[|w|..])
  }

  /** Every field is a non-empty word without white space. */
  lemma {:induction false} FieldsAreWords(s: string)
    ensures forall j :: 0 <= j < |Fields(s)| ==> Fields(s)[j] != [] && NoneIn(Fields(s)[j], WhiteSpace)
    decreases |s|
  {
    if s != [] {
      if IsSpace(s[0]) {
        FieldsAreWords(s[1..]);
      } else {
        FieldsAreWords(s[|Word(s)|..]);
      }
    }
  }

  function Concat(parts: seq<string>): string {
    if parts == [] then [] else parts[0] + Concat(parts[1..])
  }

  /** The fields together hold exactly the non-white-space characters of
      `s`, in order. */
  lemma {:induction false} FieldsCover(s: string)
    ensures Concat(Fields(s)) == StripSpace(s)
    decreases |s|
  {
    if s != [] {
      if IsSpace(s[0]) {
        FieldsCover(s[1..]);
      } else {
        var w := Word(s);
        assert s == w + s[|w|..];
        StripSpaceAppend(w, s[|w|..]);
        StripSpaceOfNoSpace(w);
        FieldsCover(s[|w|..]);
      }
    }
  }

  /** `s[i..j]` is a maximal run of non-white-space characters of `s`: it
      is non-empty, holds no white space, and has white space or an end of
      `s` on either side. */
  predicate IsFieldAt(s: string, i: int, j: int) {
    0 <= i < j <= |s| && NoneIn(s[i..j], WhiteSpace) &&
    (i == 0 || IsSpace(s[i - 1])) && (j == |s| || IsSpace(s[j]))
  }

  predicate IsField(w: string, s: string) {
    exists i, j :: 0 <= i < j <= |s| && IsFieldAt(s, i, j) && w == s[i..j]
  }

  lemma {:induction false} WordChars(s: string)
    ensures Word(s) == s[..|Word(s)|]
    ensures forall q :: 0 <= q < |Word(s)| ==> !IsSpace(s[q])
  {
    var w := Word(s);
    assert forall q :: 0 <= q < |w| ==> s[q] == w[q];
  }

  lemma {:induction false} FieldChars(s: string, i: int, j: int)
    requires IsFieldAt(s, i, j)
    ensures forall q :: i <= q < j ==> !IsSpace(s[q])
  {
    forall q | i <= q < j
      ensures !IsSpace(s[q])
    {
      assert s[q] == s[i..j][q - i];
    }
  }

  /** A maximal run of the suffix `s[off..]` is one of `s` when white space
      comes right before or right after position `off`. */
  lemma {:induction false} FieldLift(s: string, off: nat, i: int, j: int)
    requires 0 < off <= |s| && IsFieldAt(s[off..], i, j)
    requires IsSpace(s[off - 1]) || (off < |s| && IsSpace(s[off]))
    ensures IsFieldAt(s, off + i, off + j) && s[off..][i..j] == s[off + i..off + j]
  {
    FieldChars(s[off..], i, j);
    assert s[off..][i..j] == s[off + i..off + j];
    assert s[off..][i] == s[off + i];
    assert 0 < i ==> s[off..][i - 1] == s[off + i - 1];
    assert j < |s| - off ==> s[off..][j] == s[off + j];
  }

  /** A maximal run of `s` that starts at or after `off` is one of the
      suffix `s[off..]`. */
  lemma {:induction false} FieldLower(s: string, off: nat, i: int, j: int)
    requires off <= i && IsFieldAt(s, i, j)
    ensures IsFieldAt(s[off..], i - off, j - off) && s[off..][i - off..j - off] == s[i..j]
  {
    assert s[off..][i - off..j - off] == s[i..j];
    assert off < i ==> s[off..][i - off - 1] == s[i - 1];
    assert j < |s| ==> s[off..][j - off] == s[j];
  }

  /** Where the `k`-th field of `s` lies: it is a maximal run. */
  lemma {:induction false} FieldPosition(s: string, k: nat) returns (i: nat, j: nat)
    requires k < |Fields(s)|
    ensures IsFieldAt(s, i, j) && Fields(s)[k] == s[i..j]
    decreases |s|, 1
  {
    if IsSpace(s[0]) {
      assert Fields(s) == Fields(s[1..]);
      var i', j' := FieldPosition(s[1..], k);
      FieldLift(s, 1, i', j');
      i, j := 1 + i', 1 + j';
    } else if k == 0 {
      FirstField(s);
      i, j := 0, |Word(s)|;
    } else {
      i, j := LaterFieldPosition(s, k);
    }
  }

  /** The word at the start of `s` is its first field, and a maximal run. */
  lemma {:induction false} FirstField(s: string)
    requires s != [] && !IsSpace(s[0])
    ensures Fields(s) == [Word(s)] + Fields(s[|Word(s)|..])
    ensures IsFieldAt(s, 0, |Word(s)|) && Word(s) == s[0..|Word(s)|]
  {
    WordChars(s);
  }

  /** After the first word of `s` comes white space, and the later fields of
      `s` are the fields of what follows the word. */
  lemma {:induction false} FieldsAfterWord(s: string, k: nat)
    requires s != [] && !IsSpace(s[0]) && 0 < k < |Fields(s)|
    ensures 0 < |Word(s)| < |s| && IsSpace(s[|Word(s)|])
    ensures k - 1 < |Fields(s[|Word(s)|..])| && Fields(s)[k] == Fields(s[|Word(s)|..])[k - 1]
  {
    FirstField(s);
  }

  lemma {:induction false} LaterFieldPosition(s: string, k: nat) returns (i: nat, j: nat)
    requires s != [] && !IsSpace(s[0]) && 0 < k < |Fields(s)|
    ensures IsFieldAt(s, i, j) && Fields(s)[k] == s[i..j]
    decreases |s|, 0
  {
    var w := Word(s);
    FieldsAfterWord(s, k);
    var i', j' := FieldPosition(s[|w|..], k - 1);
    FieldLift(s, |w|, i', j');
    i, j := |w| + i', |w| + j';
  }

  /** Every maximal run of non-white-space characters of `s` is a field. */
  lemma {:induction false} RunIsField(s: string, i: int, j: int)
    requires IsFieldAt(s, i, j)
    ensures s[i..j] in Fields(s)
    decreases |s|, 1
  {
    if IsSpace(s[0]) {
      RunAfterSpace(s, i, j);
    } else if i == 0 {
      FirstRunIsWord(s, j);
    } else {
      RunAfterWord(s, i, j);
    }
  }

  /** A maximal run at the start of `s` is its first word. */
  lemma {:induction false} FirstRunIsWord(s: string, j: int)
    requires IsFieldAt(s, 0, j)
    ensures s[0..j] in Fields(s)
  {
    FieldChars(s, 0, j);
    WordChars(s);
    assert s[0..j] == Word(s);
    FirstField(s);
  }

  lemma {:induction false} RunAfterSpace(s: string, i: int, j: int)
    requires IsFieldAt(s, i, j) && IsSpace(s[0])
    ensures s[i..j] in Fields(s)
    decreases |s|, 0
  {
    FieldChars(s, i, j);
    FieldLower(s, 1, i, j);
    RunIsField(s[1..], i - 1, j - 1);
  }

  lemma {:induction false} RunAfterWord(s: string, i: int, j: int)
    requires IsFieldAt(s, i, j) && !IsSpace(s[0]) && 0 < i
    ensures s[i..j] in Fields(s)
    decreases |s|, 0
  {
    var w := Word(s);
    WordChars(s);
    assert |w| < i;
    FieldLower(s, |w|, i, j);
    RunIsField(s[|w|..], i - |w|, j - |w|);
    FirstField(s);
  }

  /** Go's `strings.Fields` returns exactly the maximal runs of
      non-white-space characters. */
  lemma {:induction false} FieldsAreMaximalRuns(s: string)
    ensures forall w :: w in Fields(s) <==> IsField(w, s)
  {
    forall w
      ensures w in Fields(s) <==> IsField(w, s)
    {
      if w in Fields(s) {
        var k :| 0 <= k < |Fields(s)| && Fields(s)[k] == w;
        var i, j := FieldPosition(s, k);
      }
      if IsField(w, s) {
        var i, j :| 0 <= i < j <= |s| && IsFieldAt(s, i, j) && w == s[i..j];
        RunIsField(s, i, j);
      }
    }
  }

  /** Go's `strings.Cut(s, sep)` for a one-character separator. */
  datatype CutResult = CutResult(before: string, after: string, found: bool)

  function Cut(s: string, sep: char): (r: CutResult)
    ensures sep !in r.before
    ensures r.found ==> s == r.before + [sep] + r.after
    ensures !r.found ==> r.before == s && r.after == [] && sep !in s
  {
    if s == [] then CutResult(s, [], false)
    else if s[0] == sep then CutResult([], s[1..], true)
    else
      var c := Cut(s[1..], sep);
      CutResult([s[0]] + c.before, c.after, c.found)
  }

  /** Go's `strings.Split(s, sep)` for a one-character separator. */
  function Split(s: string, sep: char): (r: seq<string>)
    ensures |r| >= 1
    ensures forall j :: 0 <= j < |r| ==> sep !in r[j]
    decreases |s|
  {
    var c := Cut(s, sep);
    if c.found then [c.before] + Split(c.after, sep) else [s]
  }

  /** The number of occurrences of `c` in `s`. */
  function Count(s: string, c: char): nat {
    if s == [] then 0 else (if s[0] == c then 1 else 0) + Count(s[1..], c)
  }

  lemma {:induction false} CountAppend(a: string, b: string, c: char)
    ensures Count(a + b, c) == Count(a, c) + Count(b, c)
  {
    if a == [] {
      assert a + b == b;
    } else {
      assert (a + b)[1..] == a[1..] + b;
      CountAppend(a[1..], b, c);
    }
  }

  lemma {:induction false} CountAbsent(s: string, c: char)
    requires c !in s
    ensures Count(s, c) == 0
  {
    if s != [] {
      CountAbsent(s[1..], c);
    }
  }

  /** A split yields one more piece than there are separators. */
  lemma {:induction false} SplitCount(s: string, sep: char)
    ensures |Split(s, sep)| == Count(s, sep) + 1
    decreases |s|
  {
    var c := Cut(s, sep);
    if c.found {
      SplitCount(c.after, sep);
      CountAppend(c.before + [sep], c.after, sep);
      CountAppend(c.before, [sep], sep);
      CountAbsent(c.before, sep);
    } else {
      CountAbsent(s, sep);
    }
  }

  /** Go's `strings.Join(parts, sep)`. */
  function Join(parts: seq<string>, sep: string): string {
    if parts == [] then []
    else if |parts| == 1 then parts[0]
    else parts[0] + sep + Join(parts[1..], sep)
  }

  /** A character in neither the parts nor the separator is not in their
      join. */
  lemma {:induction false} JoinAvoids(parts: seq<string>, sep: string, c: char)
    requires c !in sep && forall j :: 0 <= j < |parts| ==> c !in parts[j]
    ensures c !in Join(parts, sep)
  {
    if |parts| > 1 {
      JoinAvoids(parts[1..], sep, c);
    }
  }

  /** Joining the pieces of a split restores the string. */
  lemma {:induction false} JoinSplit(s: string, sep: char)
    ensures Join(Split(s, sep), [sep]) == s
    decreases |s|
  {
    var c := Cut(s, sep);
    if c.found {
      JoinSplit(c.after, sep);
    }
  }

  /** `s` with every `from` replaced by `to`. */
  function Replace(s: string, from: char, to: char): (r: string)
    ensures |r| == |s|
    ensures forall k :: 0 <= k < |s| ==> r[k] == if s[k] == from then to else s[k]
  {
    if s == [] then [] else [if s[0] == from then to else s[0]] + Replace(s[1..], from, to)
  }

  lemma {:induction false} ReplaceAppend(a: string, b: string, from: char, to: char)
    ensures Replace(a + b, from, to) == Replace(a, from, to) + Replace(b, from, to)
  {
    var l, r := Replace(a + b, from, to), Replace(a, from, to) + Replace(b, from, to);
    assert |l| == |r|;
    forall k | 0 <= k < |l| ensures l[k] == r[k] {
      if k < |a| { assert (a + b)[k] == a[k]; } else { assert (a + b)[k] == b[k - |a|]; }
    }
  }

  lemma {:induction false} NoSepReplace(s: string, sep: char, to: char)
    requires sep !in s
    ensures Replace(s, sep, to) == s
  {
    var r := Replace(s, sep, to);
    assert forall k :: 0 <= k < |s| ==> s[k] != sep;
    assert forall k :: 0 <= k < |s| ==> r[k] == s[k];
  }

  /** Splitting on `sep` and joining with `to` replaces every `sep` by `to`. */
  lemma {:induction false} JoinSplitReplaces(s: string, sep: char, to: char)
    ensures Join(Split(s, sep), [to]) == Replace(s, sep, to)
    decreases |s|
  {
    var c := Cut(s, sep);
    if c.found {
      var rest := Split(c.after, sep);
      assert Split(s, sep) == [c.before] + rest;
      assert Join([c.before] + rest, [to]) == c.before + [to] + Join(rest, [to]);
      JoinSplitReplaces(c.after, sep, to);
      ReplaceAppend(c.before, [sep], sep, to);
      ReplaceAppend(c.before + [sep], c.after, sep, to);
      assert Replace([sep], sep, to) == [to];
      NoSepReplace(c.before, sep, to);
    } else {
      NoSepReplace(s, sep, to);
    }
  }
}
