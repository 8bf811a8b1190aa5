/**
 * The part of the DOM the converter touches: elements with a tag name, an
 * inline style and children, and text nodes. A node is addressed by its path,
 * the child indices leading to it from the root.
 */
module Dom {
  import opened JsString

  /** Tag names are upper case, as `tagName` reports them for HTML elements. */
  datatype Node =
    | Elem(tag: string, style: map<string, string>, children: seq<Node>)
    | Txt(text: string)

  type Path = seq<nat>

  /** `textContent`: the text of every text node below, in document order. */
  function TextContent(n: Node): (r: string)
    ensures n.Elem? ==> forall k :: 0 <= k < |n.children| ==> |TextContent(n.children[k])| <= |r|
    decreases n, 1
  {
    match n
    case Txt(t) => t
    case Elem(_, _, ch) => ChildrenText(ch)
  }

  function ChildrenText(ch: seq<Node>): (r: string)
    ensures forall k :: 0 <= k < |ch| ==> |TextContent(ch[k])| <= |r|
    ensures ch == [] ==> r == []
    decreases ch, 0
  {
    if ch == [] then "" else TextContent(ch[0]) + ChildrenText(ch[1..])
  }

  predicate IsElem(n: Node, tag: string) {
    n.Elem? && n.tag == tag
  }

  predicate ValidPath(n: Node, p: Path)
    decreases p
  {
    p == [] || (n.Elem? && p[0] < |n.children| && ValidPath(n.children[p[0]], p[1..]))
  }

  /** The node at path `p`. */
  function At(n: Node, p: Path): Node
    requires ValidPath(n, p)
    decreases p
  {
    if p == [] then n else At(n.children[p[0]], p[1..])
  }

  /** `replaceWith`: the node at `p` gives its place among its siblings to `m`. */
  function ReplaceAt(n: Node, p: Path, m: Node): (r: Node)
    requires ValidPath(n, p)
    ensures ValidPath(r, p) && At(r, p) == m
    ensures p != [] ==> r.Elem? && r.tag == n.tag && r.style == n.style && |r.children| == |n.children|
    decreases p
  {
    if p == [] then m
    else n.(children := n.children[p[0] := ReplaceAt(n.children[p[0]], p[1..], m)])
  }

  /**
   * Replacing the node at `p` leaves every node that is neither an ancestor
   * nor a descendant of `p` where it was and as it was, and every ancestor
   * keeps its tag, style and number of children.
   */
  lemma {:induction false} ReplaceElsewhere(n: Node, p: Path, m: Node, q: Path)
    requires ValidPath(n, p) && ValidPath(n, q) && !(p <= q)
    ensures ValidPath(ReplaceAt(n, p, m), q)
    ensures !(q <= p) ==> At(ReplaceAt(n, p, m), q) == At(n, q)
    ensures q < p ==> && At(n, q).Elem? && At(ReplaceAt(n, p, m), q).Elem?
                      && At(ReplaceAt(n, p, m), q).tag == At(n, q).tag
                      && At(ReplaceAt(n, p, m), q).style == At(n, q).style
                      && |At(ReplaceAt(n, p, m), q).children| == |At(n, q).children|
    decreases q
  {
    if q != [] {
      assert p != [];
      var r := ReplaceAt(n, p, m);
      if p[0] == q[0] {
        assert !(p[1..] <= q[1..]);
        ReplaceElsewhere(n.children[p[0]], p[1..], m, q[1..]);
        assert q <= p <==> q[1..] <= p[1..];
        assert q < p <==> q[1..] < p[1..];
      } else {
        assert r.children[q[0]] == n.children[q[0]];
        assert !(q <= p);
      }
    }
  }

  /** The style declarations in `kvs` set on the element at `p`. */
  function RestyleAt(n: Node, p: Path, kvs: map<string, string>): (r: Node)
    requires ValidPath(n, p) && At(n, p).Elem?
    ensures Shape(r) == Shape(n)
    ensures ValidPath(r, p) && At(r, p).Elem? && At(r, p).style == At(n, p).style + kvs
    decreases p
  {
    if p == [] then n.(style := n.style + kvs)
    else
      var r := n.(children := n.children[p[0] := RestyleAt(n.children[p[0]], p[1..], kvs)]);
      assert Shape(r).children == Shape(n).children by {
        forall k | 0 <= k < |n.children| ensures Shape(r).children[k] == Shape(n).children[k] {
        }
      }
      r
  }

  /** The tree without its styles: what a style change cannot alter. */
  function Shape(n: Node): Node
    decreases n
  {
    match n
    case Txt(_) => n
    case Elem(tag, _, ch) => Elem(tag, map[], seq(|ch|, k requires 0 <= k < |ch| => Shape(ch[k])))
  }

  lemma {:induction false} ShapeAt(a: Node, b: Node, p: Path)
    requires Shape(a) == Shape(b) && ValidPath(a, p)
    ensures ValidPath(b, p) && Shape(At(a, p)) == Shape(At(b, p))
    ensures At(a, p).Elem? == At(b, p).Elem?
    ensures At(a, p).Elem? ==> At(a, p).tag == At(b, p).tag
    decreases p
  {
    if p != [] {
      assert Shape(a).children[p[0]] == Shape(b).children[p[0]];
      ShapeAt(a.children[p[0]], b.children[p[0]], p[1..]);
    }
  }

  /** The paths of all elements, in document (pre-)order: the order of `querySelectorAll`. */
  function ElemPaths(n: Node): seq<Path>
    decreases n
  {
    match n
    case Txt(_) => []
    case Elem(_, _, ch) => [[]] + ChildPaths(ch, 0)
  }

  function ChildPaths(ch: seq<Node>, k: nat): seq<Path>
    requires k <= |ch|
    decreases ch, |ch| - k
  {
    if k == |ch| then [] else Under(k, ElemPaths(ch[k])) + ChildPaths(ch, k + 1)
  }

  /** The paths `ps` moved under child `k`; the ensures is the definition, spelled out for callers. */
  function Under(k: nat, ps: seq<Path>): (r: seq<Path>)
    ensures |r| == |ps| && forall i :: 0 <= i < |ps| ==> r[i] == [k] + ps[i]
  {
    seq(|ps|, i requires 0 <= i < |ps| => [k] + ps[i])
  }

  lemma UnderMember(k: nat, ps: seq<Path>, q: Path)
    ensures q in Under(k, ps) <==> |q| > 0 && q[0] == k && q[1..] in ps
  {
    if |q| > 0 && q[0] == k && q[1..] in ps {
      var i :| 0 <= i < |ps| && ps[i] == q[1..];
      assert Under(k, ps)[i] == q;
    }
  }

  lemma {:induction false} ChildPathsMember(ch: seq<Node>, k: nat, q: Path)
    requires k <= |ch|
    ensures q in ChildPaths(ch, k) <==> |q| > 0 && k <= q[0] < |ch| && q[1..] in ElemPaths(ch[q[0]])
    decreases |ch| - k
  {
    if k < |ch| {
      UnderMember(k, ElemPaths(ch[k]), q);
      ChildPathsMember(ch, k + 1, q);
    }
  }

  /** The pre-order list holds exactly the paths that lead to elements. */
  lemma {:induction false} ElemPathsMember(n: Node, q: Path)
    ensures q in ElemPaths(n) <==> ValidPath(n, q) && At(n, q).Elem?
    decreases q
  {
    if n.Elem? {
      ChildPathsMember(n.children, 0, q);
      if q != [] && q[0] < |n.children| {
        ElemPathsMember(n.children[q[0]], q[1..]);
      }
    }
  }

  /** No path comes after one of its descendants. */
  predicate AncestorsFirst(ps: seq<Path>) {
    forall j, i :: 0 <= j < i < |ps| ==> !(ps[i] <= ps[j])
  }

  lemma AncestorsFirstConcat(a: seq<Path>, b: seq<Path>)
    requires AncestorsFirst(a) && AncestorsFirst(b)
    requires forall x, y :: x in a && y in b ==> !(y <= x)
    ensures AncestorsFirst(a + b)
  {
    var c := a + b;
    forall j, i | 0 <= j < i < |c| ensures !(c[i] <= c[j]) {
      if i < |a| {
        assert c[i] == a[i] && c[j] == a[j];
      } else if j < |a| {
        assert c[i] == b[i - |a|] && c[j] == a[j];
        assert b[i - |a|] in b && a[j] in a;
      } else {
        assert c[i] == b[i - |a|] && c[j] == b[j - |a|];
      }
    }
  }

  lemma AncestorsFirstUnder(k: nat, ps: seq<Path>)
    requires AncestorsFirst(ps)
    ensures AncestorsFirst(Under(k, ps))
  {
    var u := Under(k, ps);
    forall j, i | 0 <= j < i < |u| ensures !(u[i] <= u[j]) {
      PrefixCons(k, ps[i], ps[j]);
    }
  }

  lemma PrefixCons(k: nat, x: Path, y: Path)
    ensures [k] + x <= [k] + y <==> x <= y
  {
    if [k] + x <= [k] + y {
      assert x == ([k] + x)[1..] && y[..|x|] == ([k] + y)[1..|x| + 1];
    }
  }

  lemma {:induction false} ChildPathsOrder(ch: seq<Node>, k: nat)
    requires k <= |ch|
    ensures AncestorsFirst(ChildPaths(ch, k))
    ensures forall q :: q in ChildPaths(ch, k) ==> |q| > 0 && k <= q[0]
    decreases ch, |ch| - k
  {
    if k < |ch| {
      ElemPathsOrder(ch[k]);
      AncestorsFirstUnder(k, ElemPaths(ch[k]));
      ChildPathsOrder(ch, k + 1);
      var a, b := Under(k, ElemPaths(ch[k])), ChildPaths(ch, k + 1);
      forall x | x in a ensures |x| > 0 && x[0] == k {
        UnderMember(k, ElemPaths(ch[k]), x);
      }
      AncestorsFirstConcat(a, b);
    }
  }

  /** Document order lists every element before its descendants. */
  lemma {:induction false} ElemPathsOrder(n: Node)
    ensures AncestorsFirst(ElemPaths(n))
    ensures n.Elem? ==> |ElemPaths(n)| > 0 && ElemPaths(n)[0] == []
    decreases n
  {
    if n.Elem? {
      ChildPathsOrder(n.children, 0);
      AncestorsFirstConcat([[]], ChildPaths(n.children, 0));
    }
  }

  /** A path below a path: the descendant `r` of the node at `p`. */
  lemma {:induction false} AtConcat(n: Node, p: Path, r: Path)
    requires ValidPath(n, p) && ValidPath(At(n, p), r)
    ensures ValidPath(n, p + r) && At(n, p + r) == At(At(n, p), r)
    decreases p
  {
    if p == [] {
      assert p + r == r;
    } else {
      assert (p + r)[0] == p[0] && (p + r)[1..] == p[1..] + r;
      AtConcat(n.children[p[0]], p[1..], r);
    }
  }

  /** Setting a style on the element at `p` changes no other node's style. */
  lemma {:induction false} RestyleElsewhere(n: Node, p: Path, kvs: map<string, string>, q: Path)
    requires ValidPath(n, p) && At(n, p).Elem? && ValidPath(n, q) && At(n, q).Elem? && q != p
    ensures ValidPath(RestyleAt(n, p, kvs), q) && At(RestyleAt(n, p, kvs), q).Elem?
    ensures At(RestyleAt(n, p, kvs), q).style == At(n, q).style
    decreases q
  {
    var r := RestyleAt(n, p, kvs);
    if q != [] {
      if p != [] && p[0] == q[0] {
        assert p[1..] != q[1..] by {
          assert p == [p[0]] + p[1..] && q == [q[0]] + q[1..];
        }
        RestyleElsewhere(n.children[p[0]], p[1..], kvs, q[1..]);
      } else if p != [] {
        assert r.children[q[0]] == n.children[q[0]];
      }
    }
  }

  /** Every listed path leads to an element. */
  lemma ElemPathsValid(n: Node)
    ensures forall j :: 0 <= j < |ElemPaths(n)| ==> ValidPath(n, ElemPaths(n)[j]) && At(n, ElemPaths(n)[j]).Elem?
  {
    forall j | 0 <= j < |ElemPaths(n)| ensures ValidPath(n, ElemPaths(n)[j]) && At(n, ElemPaths(n)[j]).Elem? {
      ElemPathsMember(n, ElemPaths(n)[j]);
    }
  }

  /** Document order depends only on the shape of the tree, not on its styles. */
  lemma {:induction false} ElemPathsShape(a: Node, b: Node)
    requires Shape(a) == Shape(b)
    ensures ElemPaths(a) == ElemPaths(b)
    decreases a
  {
    if a.Elem? {
      assert |Shape(a).children| == |a.children| && |Shape(b).children| == |b.children|;
      forall j | 0 <= j < |a.children| ensures Shape(a.children[j]) == Shape(b.children[j]) {
        assert Shape(a).children[j] == Shape(b).children[j];
      }
      ChildPathsShape(a.children, b.children, 0);
    }
  }

  lemma {:induction false} ChildPathsShape(ca: seq<Node>, cb: seq<Node>, k: nat)
    requires |ca| == |cb| && k <= |ca|
    requires forall j :: 0 <= j < |ca| ==> Shape(ca[j]) == Shape(cb[j])
    ensures ChildPaths(ca, k) == ChildPaths(cb, k)
    decreases ca, |ca| - k
  {
    if k < |ca| {
      ElemPathsShape(ca[k], cb[k]);
      ChildPathsShape(ca, cb, k + 1);
    }
  }

  /**
   * `querySelectorAll("*")` on an element: its proper descendant elements,
   * each listed once, none before an ancestor.
   */
  lemma Descendants(n: Node)
    requires n.Elem?
    ensures var s := ElemPaths(n)[1..];
      && AncestorsFirst(s)
      && (forall j :: 0 <= j < |s| ==> s[j] != [] && ValidPath(n, s[j]) && At(n, s[j]).Elem?)
      && (forall q :: ValidPath(n, q) && At(n, q).Elem? && q != [] ==> q in s)
  {
    var ps := ElemPaths(n);
    var s := ps[1..];
    ElemPathsOrder(n);
    ElemPathsValid(n);
    forall j | 0 <= j < |s| ensures s[j] != [] && ValidPath(n, s[j]) && At(n, s[j]).Elem? {
      assert s[j] == ps[j + 1];
      assert !(ps[j + 1] <= ps[0]);
    }
    forall j, i | 0 <= j < i < |s| ensures !(s[i] <= s[j]) {
      assert s[i] == ps[i + 1] && s[j] == ps[j + 1];
    }
    forall q | ValidPath(n, q) && At(n, q).Elem? && q != [] ensures q in s {
      ElemPathsMember(n, q);
      var j :| 0 <= j < |ps| && ps[j] == q;
      assert s[j - 1] == q;
    }
  }

  /** In a list where ancestors come first, nothing listed before index `i` lies below `s[i]`. */
  lemma NotBelowEarlier(s: seq<Path>, i: nat, V: set<Path>)
    requires AncestorsFirst(s) && i < |s|
    requires forall q :: q in V ==> q in s[..i]
    ensures forall q :: q in V ==> !(s[i] <= q)
  {
    forall q | q in V ensures !(s[i] <= q) {
      var j :| 0 <= j < i && s[..i][j] == q;
      assert s[j] == q;
    }
  }
}
