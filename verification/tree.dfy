/**
 * An abstract stand-in for the DOM subtree a template owns. Children are addressed by
 * their offset in `childNodes`, which counts every kind of node.
 */
module Tree {
  import opened Results

  datatype Node =
    | Element(children: seq<Node>)
    | Text(content: string)
    /** Any other child node (a comment, or a non-HTML element such as SVG): it occupies
        an offset but `_parse` neither recurses into it nor reads it. */
    | Other

  /** `_xpath`: follow child offsets down from `n`; `None` where `childNodes.item` would
      give `null`: an offset past the end of an element's child nodes, text included, or
      any offset below a `Text` or `Other` node, which has no children at all. */
  function Walk(n: Node, path: seq<nat>): Option<Node>
    decreases |path|
  {
    if |path| == 0 then Some(n)
    else
      match n
      case Element(cs) => if path[0] < |cs| then Walk(cs[path[0]], path[1..]) else None
      case _ => None
  }

  /** `node.textContent = s` on the text node at `path`; nothing else changes. */
  function SetText(n: Node, path: seq<nat>, s: string): Node
    decreases |path|
  {
    if |path| == 0 then (if n.Text? then Text(s) else n)
    else
      match n
      case Element(cs) =>
        if path[0] < |cs| then Element(cs[path[0] := SetText(cs[path[0]], path[1..], s)]) else n
      case _ => n
  }

  predicate IsTextAt(n: Node, path: seq<nat>) {
    Walk(n, path).Some? && Walk(n, path).value.Text?
  }

  /** `q` is `p` or one of its ancestors' paths. */
  predicate PrefixOf(q: seq<nat>, p: seq<nat>) {
    |q| <= |p| && p[..|q|] == q
  }

  /** Writing text at `p` puts it there and leaves every path that is not `p` or above it
      as it was; ancestors keep their kind. */
  lemma {:induction false} SetTextEffect(n: Node, p: seq<nat>, s: string, q: seq<nat>)
    ensures IsTextAt(n, p) ==> Walk(SetText(n, p, s), p) == Some(Text(s))
    ensures !PrefixOf(q, p) ==> Walk(SetText(n, p, s), q) == Walk(n, q)
    decreases |p|
  {
    if |p| > 0 && n.Element? && p[0] < |n.children| {
      var c := n.children[p[0]];
      SetTextEffect(c, p[1..], s, p[1..]);
      if |q| > 0 && q[0] == p[0] {
        SetTextEffect(c, p[1..], s, q[1..]);
        if PrefixOf(q[1..], p[1..]) {
          assert q == [q[0]] + q[1..];
          assert p[..|q|] == [p[0]] + p[1..][..|q| - 1];
        }
      }
    }
  }

  /** Writing the text a node already has changes nothing. */
  lemma {:induction false} SetTextSame(n: Node, p: seq<nat>, s: string)
    requires Walk(n, p) == Some(Text(s))
    ensures SetText(n, p, s) == n
    decreases |p|
  {
    if |p| > 0 {
      var cs := n.children;
      SetTextSame(cs[p[0]], p[1..], s);
      assert cs[p[0] := cs[p[0]]] == cs;
    }
  }

  /** A text node has no descendants. */
  lemma {:induction false} BelowText(n: Node, p: seq<nat>, q: seq<nat>)
    requires IsTextAt(n, p) && PrefixOf(p, q) && p != q
    ensures Walk(n, q) == None
    decreases |p|
  {
    if |p| > 0 {
      assert q[1..][..|p| - 1] == p[1..];
      BelowText(n.children[p[0]], p[1..], q[1..]);
    } else {
      assert |q| > 0;
    }
  }

  /** Where no text node sits at `p`, writing there changes nothing. */
  lemma {:induction false} SetTextMissing(n: Node, p: seq<nat>, s: string)
    requires !IsTextAt(n, p)
    ensures SetText(n, p, s) == n
    decreases |p|
  {
    if |p| > 0 && n.Element? && p[0] < |n.children| {
      SetTextMissing(n.children[p[0]], p[1..], s);
      assert n.children[p[0] := n.children[p[0]]] == n.children;
    }
  }

  /** Of two different text nodes, neither path leads through the other. */
  lemma TextPathsApart(n: Node, p: seq<nat>, q: seq<nat>)
    requires IsTextAt(n, p) && IsTextAt(n, q) && p != q
    ensures !PrefixOf(p, q)
  {
    if PrefixOf(p, q) {
      BelowText(n, p, q);
    }
  }

  /** A text node stays a text node whatever text is written anywhere. */
  lemma SetTextKeepsText(n: Node, p: seq<nat>, s: string, q: seq<nat>)
    requires IsTextAt(n, q)
    ensures IsTextAt(SetText(n, p, s), q)
  {
    SetTextEffect(n, p, s, q);
    if IsTextAt(n, p) {
      if p != q {
        TextPathsApart(n, q, p);
      }
    } else {
      SetTextMissing(n, p, s);
    }
  }
}
