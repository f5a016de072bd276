/**
 * The two walks over a parsed HTML tree in scripts/indexPosts.go:
 * `extractText`, which gathers the text under a node, and
 * `findNodeByClass`, which looks for the first `div` carrying a class.
 * The tree is the one the HTML parser builds; its first-child and
 * next-sibling links are modelled as a sequence of children.
 */
module Html {
  import opened GoStrings

  datatype Option<T> = None | Some(value: T)

  datatype Attr = Attr(key: string, val: string)

  /** A text node, an element (its tag name, attributes and children), or
      any other kind of node (document, comment, doctype), of which only the
      children matter here. */
  datatype Node =
    | Text(data: string)
    | Element(tag: string, attrs: seq<Attr>, children: seq<Node>)
    | Other(children: seq<Node>)

  function Children(n: Node): seq<Node> {
    if n.Text? then [] else n.children
  }

  // ---------------------------------------------------------------------
  // extractText
  // ---------------------------------------------------------------------

  /** The text of `n`'s children: a text child gives its data, any other
      child the (trimmed) text extracted from it; the result is trimmed of
      white space at both ends. */
  function TextOf(n: Node): (r: string)
    ensures r == [] || (!IsSpace(r[0]) && !IsSpace(r[|r| - 1]))
    decreases n, 1, 0
  {
    TrimFuncSpec(Pieces(n, |Children(n)|), WhiteSpace);
    TrimSpace(Pieces(n, |Children(n)|))
  }

  /** What the first `k` children of `n` contribute, concatenated. */
  function Pieces(n: Node, k: nat): string
    requires k <= |Children(n)|
    decreases n, 0, k
  {
    if k == 0 then []
    else
      var c := Children(n)[k - 1];
      Pieces(n, k - 1) + (if c.Text? then c.data else TextOf(c))
  }

  /** All the text data in the subtree of `n`, in document order, as it is
      in the tree. */
  function DocText(n: Node): string
    decreases n, 1, 0
  {
    if n.Text? then n.data else DocPieces(n, |Children(n)|)
  }

  function DocPieces(n: Node, k: nat): string
    requires k <= |Children(n)|
    decreases n, 0, k
  {
    if k == 0 then [] else DocPieces(n, k - 1) + DocText(Children(n)[k - 1])
  }

  /** `extractText` as the source writes it: a loop over the children that
      appends into a buffer, recursing into every child that is not text. */
  method ExtractText(n: Node) returns (r: string)
    ensures r == TextOf(n)
    decreases n
  {
    var cs := Children(n);
    var buf := "";
    var i := 0;
    while i < |cs|
      invariant 0 <= i <= |cs|
      invariant buf == Pieces(n, i)
    {
      var c := cs[i];
      assert c == Children(n)[i];
      if c.Text? {
        buf := buf + c.data;
      } else {
        var t := ExtractText(c);
        buf := buf + t;
      }
      assert buf == Pieces(n, i + 1);
      i := i + 1;
    }
    r := TrimSpace(buf);
  }

  /** The extracted text keeps every non-white-space character of the text
      under a node, in document order. Which white space it keeps is stated
      by `TextOfTidy`. */
  lemma {:induction false} TextOfKeepsText(n: Node)
    requires !n.Text?
    ensures StripSpace(TextOf(n)) == StripSpace(DocText(n))
    decreases n, 1, 0
  {
    StripSpaceTrimSpace(Pieces(n, |Children(n)|));
    PiecesKeepText(n, |Children(n)|);
  }

  lemma {:induction false} PiecesKeepText(n: Node, k: nat)
    requires k <= |Children(n)|
    ensures StripSpace(Pieces(n, k)) == StripSpace(DocPieces(n, k))
    decreases n, 0, k
  {
    if k > 0 {
      var c := Children(n)[k - 1];
      PiecesKeepText(n, k - 1);
      StripSpaceAppend(Pieces(n, k - 1), if c.Text? then c.data else TextOf(c));
      StripSpaceAppend(DocPieces(n, k - 1), DocText(c));
      if !c.Text? {
        TextOfKeepsText(c);
      }
    }
  }

  /** No element or other non-text node below `n` has text that starts or
      ends with white space. */
  predicate Tidy(n: Node)
    decreases n
  {
    n.Text? ||
    forall i :: 0 <= i < |n.children| ==>
      n.children[i].Text? ||
      (TrimSpace(DocText(n.children[i])) == DocText(n.children[i]) && Tidy(n.children[i]))
  }

  /** Below a tidy node the nested trims remove nothing, so the extracted
      text is the text of the subtree, as it is in the tree, trimmed at both
      ends: every inner white-space character survives. */
  lemma {:induction false} TextOfTidy(n: Node)
    requires !n.Text? && Tidy(n)
    ensures TextOf(n) == TrimSpace(DocText(n))
    decreases n, 1, 0
  {
    PiecesTidy(n, |Children(n)|);
  }

  lemma {:induction false} PiecesTidy(n: Node, k: nat)
    requires !n.Text? && Tidy(n) && k <= |Children(n)|
    ensures Pieces(n, k) == DocPieces(n, k)
    decreases n, 0, k
  {
    if k > 0 {
      var c := Children(n)[k - 1];
      PiecesTidy(n, k - 1);
      if !c.Text? {
        assert TrimSpace(DocText(c)) == DocText(c) && Tidy(c);
        TextOfTidy(c);
      }
    }
  }

  /** In particular, a node whose children are all text nodes yields their
      data, concatenated and trimmed. */
  lemma {:induction false} TextOfFlat(n: Node)
    requires !n.Text? && forall i :: 0 <= i < |Children(n)| ==> Children(n)[i].Text?
    ensures TextOf(n) == TrimSpace(DocText(n))
  {
    assert Children(n) == n.children;
    TextOfTidy(n);
  }

  // ---------------------------------------------------------------------
  // findNodeByClass
  // ---------------------------------------------------------------------

  /** `n` is a `div` element with a `class` attribute whose white-space
      separated fields include `className`. */
  predicate IsClassDiv(n: Node, className: string) {
    n.Element? && n.tag == "div" &&
    exists j :: 0 <= j < |n.attrs| && n.attrs[j].key == "class" && className in Fields(n.attrs[j].val)
  }

  /** The node found from `n`: `n` itself when it matches, otherwise the
      first match among its children, tried in order. */
  function Find(n: Node, className: string): (r: Option<Node>)
    ensures r.Some? ==> IsClassDiv(r.value, className)
    decreases n, 1, 0
  {
    if IsClassDiv(n, className) then Some(n) else FindAmong(n, 0, className)
  }

  /** The first match found in the children of `n` from the `i`-th on. */
  function FindAmong(n: Node, i: nat, className: string): (r: Option<Node>)
    requires i <= |Children(n)|
    ensures r.Some? ==> IsClassDiv(r.value, className)
    decreases n, 0, |Children(n)| - i
  {
    if i == |Children(n)| then None
    else
      match Find(Children(n)[i], className)
      case Some(m) => Some(m)
      case None => FindAmong(n, i + 1, className)
  }

  /** `findNodeByClass` as the source writes it: nested loops over the
      attributes and the class fields with an early return, then a loop over
      the children with a recursive call. */
  method FindNodeByClass(n: Node, className: string) returns (r: Option<Node>)
    ensures r == Find(n, className)
    decreases n
  {
    if n.Element? && n.tag == "div" {
      var i := 0;
      while i < |n.attrs|
        invariant 0 <= i <= |n.attrs|
        invariant forall j :: 0 <= j < i ==> !(n.attrs[j].key == "class" && className in Fields(n.attrs[j].val))
      {
        var attr := n.attrs[i];
        if attr.key == "class" {
          var classes := Fields(attr.val);
          var k := 0;
          while k < |classes|
            invariant 0 <= k <= |classes|
            invariant className !in classes[..k]
          {
            if classes[k] == className {
              assert n.attrs[i].key == "class" && className in Fields(n.attrs[i].val);
              return Some(n);
            }
            assert classes[..k + 1] == classes[..k] + [classes[k]];
            k := k + 1;
          }
          assert classes[..k] == classes;
        }
        i := i + 1;
      }
    }
    assert !IsClassDiv(n, className);
    var cs := Children(n);
    var i := 0;
    while i < |cs|
      invariant 0 <= i <= |cs|
      invariant FindAmong(n, i, className) == FindAmong(n, 0, className)
    {
      var result := FindNodeByClass(cs[i], className);
      assert FindAmong(n, i, className) == if result.Some? then result else FindAmong(n, i + 1, className);
      if result.Some? {
        return result;
      }
      i := i + 1;
    }
    return None;
  }

  /** The nodes of the subtree of `n` in pre-order (document order). */
  function PreOrder(n: Node): (r: seq<Node>)
    ensures |r| >= 1 && r[0] == n
    decreases n, 1, 0
  {
    [n] + PreOrderFrom(n, 0)
  }

  /** The pre-order listings of the children of `n` from the `i`-th on. */
  function PreOrderFrom(n: Node, i: nat): seq<Node>
    requires i <= |Children(n)|
    decreases n, 0, |Children(n)| - i
  {
    if i == |Children(n)| then [] else PreOrder(Children(n)[i]) + PreOrderFrom(n, i + 1)
  }

  /** The first node of `s` that is a matching `div`. */
  function FirstMatch(s: seq<Node>, className: string): (r: Option<Node>)
    ensures r.None? <==> forall k :: 0 <= k < |s| ==> !IsClassDiv(s[k], className)
    ensures r.Some? ==> exists k :: 0 <= k < |s| && s[k] == r.value && IsClassDiv(s[k], className) &&
                           forall j :: 0 <= j < k ==> !IsClassDiv(s[j], className)
  {
    if s == [] then None
    else if IsClassDiv(s[0], className) then Some(s[0])
    else
      var r := FirstMatch(s[1..], className);
      assert forall k :: 0 < k < |s| ==> s[k] == s[1..][k - 1];
      r
  }

  lemma {:induction false} FirstMatchAppend(a: seq<Node>, b: seq<Node>, className: string)
    ensures FirstMatch(a + b, className) ==
      if FirstMatch(a, className).Some? then FirstMatch(a, className) else FirstMatch(b, className)
  {
    if a == [] {
      assert a + b == b;
    } else {
      assert (a + b)[0] == a[0];
      assert (a + b)[1..] == a[1..] + b;
      FirstMatchAppend(a[1..], b, className);
    }
  }

  /** `findNodeByClass` returns the first matching `div` of the subtree in
      document order, and nothing when the subtree has none. */
  lemma {:induction false} FindIsFirstInPreOrder(n: Node, className: string)
    ensures Find(n, className) == FirstMatch(PreOrder(n), className)
    decreases n, 1, 0
  {
    FirstMatchAppend([n], PreOrderFrom(n, 0), className);
    assert FirstMatch([n], className) == if IsClassDiv(n, className) then Some(n) else None;
    FindAmongIsFirst(n, 0, className);
  }

  lemma {:induction false} FindAmongIsFirst(n: Node, i: nat, className: string)
    requires i <= |Children(n)|
    ensures FindAmong(n, i, className) == FirstMatch(PreOrderFrom(n, i), className)
    decreases n, 0, |Children(n)| - i
  {
    if i < |Children(n)| {
      var c := Children(n)[i];
      FindIsFirstInPreOrder(c, className);
      FindAmongIsFirst(n, i + 1, className);
      FirstMatchAppend(PreOrder(c), PreOrderFrom(n, i + 1), className);
    }
  }

  /** What a search returns is a matching `div` of the subtree; it returns
      nothing exactly when no node of the subtree matches. Elements other
      than `div` are never returned, whatever their class. */
  lemma {:induction false} FindResult(n: Node, className: string)
    ensures Find(n, className).None? <==>
      forall k :: 0 <= k < |PreOrder(n)| ==> !IsClassDiv(PreOrder(n)[k], className)
    ensures Find(n, className).Some? ==>
      var m := Find(n, className).value;
      m in PreOrder(n) && m.Element? && m.tag == "div"
  {
    FindIsFirstInPreOrder(n, className);
  }

  /** Class fields are never empty, so no node matches the empty name. */
  lemma {:induction false} NothingHasEmptyClass(n: Node)
    ensures Find(n, "") == None
  {
    if Find(n, "").Some? {
      var m := Find(n, "").value;
      var j :| 0 <= j < |m.attrs| && m.attrs[j].key == "class" && "" in Fields(m.attrs[j].val);
      FieldsAreWords(m.attrs[j].val);
      assert false;
    }
  }
}
