/**
 * The heading and paragraph remap of `convertirHTML` (server.cjs), as a
 * recursive rewrite of the body: every element is considered in document
 * order; an eligible one whose tag the switch knows is replaced by a freshly
 * built node, and the nodes inside a replaced one are not looked at again.
 *
 * `Within` is the same rewrite restricted to the elements whose paths are in
 * a set `V`: it is the state of the document once the walk has visited `V`.
 */
module Remap {
  import opened JsString
  import opened TitleCase
  import opened Dom

  /** The prefix tested, case-insensitively, at the start of a paragraph's text. */
  const Subdivision: string := "subdivisi"

  /** Paragraphs whose text is shorter than this many UTF-16 units are underlined. */
  const ShortParagraph: nat := 60

  predicate IsListOrCell(n: Node) {
    IsElem(n, "LI") || IsElem(n, "TD")
  }

  /** `closest("li, td")` of `n`, given whether one of its ancestors is an LI or TD. */
  predicate Inside(ins: bool, n: Node) {
    ins || IsListOrCell(n)
  }

  function Strong(tag: string, text: string): Node {
    Elem(tag, map[], [Elem("STRONG", map[], [Txt(text)])])
  }

  function Para(wrappers: seq<string>, text: string): Node
    decreases |wrappers|
  {
    if wrappers == [] then Txt(text)
    else Elem(wrappers[0], map[], [Para(wrappers[1..], text)])
  }

  /**
   * The `switch` on the tag: the node that replaces an element with tag `tag`
   * and trimmed text `text`, or `None` when the element stays.
   */
  function Rewrite(cs: Casing, tag: string, text: string): (r: Option<Node>)
    ensures r.Some? <==> tag in {"H1", "H2", "H3", "H4", "H5", "H6", "H7"} || (tag == "P" && (StartsWithCI(text, Subdivision) || Utf16Length(text) < ShortParagraph))
    ensures r.Some? ==> r.value.Elem? && r.value.tag in {"H3", "H4", "H5", "H6", "P"} && r.value.style == map[] && |r.value.children| == 1
  {
    if tag == "H1" then Some(Strong("H3", Upper(cs, text)))
    else if tag == "H2" then Some(Strong("H4", Upper(cs, text)))
    else if tag == "H3" then Some(Strong("H5", Upper(cs, text)))
    else if tag == "H4" then Some(Strong("H6", Upper(cs, text)))
    else if tag == "H5" then Some(Para(["P", "B", "U"], ToTitleCase(cs, text)))
    else if tag == "H6" then Some(Para(["P", "B"], ToTitleCase(cs, text)))
    else if tag == "H7" then Some(Para(["P", "U"], ToTitleCase(cs, text)))
    else if tag == "P" && (StartsWithCI(text, Subdivision) || Utf16Length(text) < ShortParagraph) then
      Some(Para(["P", "U"], ToTitleCase(cs, text)))
    else None
  }

  /** The trimmed `textContent`. */
  function Text(n: Node): string {
    Trim(TextContent(n))
  }

  /** The walk replaces the element `n`, whose ancestors are inside a list or table iff `ins`. */
  predicate Fires(cs: Casing, ins: bool, n: Node)
    ensures Fires(cs, ins, n) ==> !ins && n.Elem? && n.tag in {"H1", "H2", "H3", "H4", "H5", "H6", "H7", "P"}
  {
    n.Elem? && !Inside(ins, n) && |Text(n)| > 0 && Rewrite(cs, n.tag, Text(n)).Some?
  }

  function Replacement(cs: Casing, ins: bool, n: Node): Node
    requires Fires(cs, ins, n)
  {
    Rewrite(cs, n.tag, Text(n)).value
  }

  /** The rewrite of the subtree `n`, whose ancestors are inside a list or table iff `ins`. */
  function RemapNode(cs: Casing, ins: bool, n: Node): (r: Node)
    ensures n.Txt? ==> r == n
    ensures n.Elem? && !Fires(cs, ins, n) ==> r.Elem? && r.tag == n.tag && r.style == n.style && |r.children| == |n.children|
    ensures n.Elem? ==> r.Elem? && r.tag in {n.tag, "H3", "H4", "H5", "H6", "P"}
    decreases n
  {
    if Fires(cs, ins, n) then Replacement(cs, ins, n)
    else match n
      case Txt(_) => n
      case Elem(tag, st, ch) =>
        Elem(tag, st, seq(|ch|, k requires 0 <= k < |ch| => RemapNode(cs, Inside(ins, n), ch[k])))
  }

  /** The remap of the whole body: `querySelectorAll("*")` does not include the body itself. */
  function RemapBody(cs: Casing, body: Node): (r: Node)
    requires body.Elem?
    ensures r.Elem? && r.tag == body.tag && r.style == body.style && |r.children| == |body.children|
    ensures forall k :: 0 <= k < |r.children| && body.children[k].Txt? ==> r.children[k] == body.children[k]
  {
    var ch := body.children;
    body.(children := seq(|ch|, k requires 0 <= k < |ch| => RemapNode(cs, Inside(false, body), ch[k])))
  }

  /** The rewrite applied only at the visited elements: those whose absolute paths are in `V`. */
  function Within(cs: Casing, V: set<Path>, ins: bool, at: Path, n: Node): Node
    decreases n
  {
    if at in V && Fires(cs, ins, n) then Replacement(cs, ins, n)
    else match n
      case Txt(_) => n
      case Elem(tag, st, ch) =>
        Elem(tag, st, seq(|ch|, k requires 0 <= k < |ch| => Within(cs, V, Inside(ins, n), at + [k], ch[k])))
  }

  /** Whether the ancestors of the node at `p` are inside a list or table. */
  function InsideAbove(ins: bool, n: Node, p: Path): bool
    requires ValidPath(n, p)
    decreases p
  {
    if p == [] then ins else InsideAbove(Inside(ins, n), n.children[p[0]], p[1..])
  }

  /** A visited proper ancestor of the node at `p` has been replaced: that node is detached. */
  predicate Blocked(cs: Casing, V: set<Path>, ins: bool, at: Path, n: Node, p: Path)
    requires ValidPath(n, p)
    decreases p
  {
    p != [] &&
    ((at in V && Fires(cs, ins, n)) || Blocked(cs, V, Inside(ins, n), at + [p[0]], n.children[p[0]], p[1..]))
  }

  // ---------------------------------------------------------------------------
  // What the rewrite does

  /** Inside a list item or table cell nothing changes. */
  lemma {:induction false} InsideUnchanged(cs: Casing, n: Node)
    ensures RemapNode(cs, true, n) == n
    decreases n
  {
    if n.Elem? {
      forall k | 0 <= k < |n.children| ensures RemapNode(cs, true, n.children[k]) == n.children[k] {
        InsideUnchanged(cs, n.children[k]);
      }
    }
  }

  /** A list item or table cell, and everything in it, stays as it is. */
  lemma ListOrCellUnchanged(cs: Casing, ins: bool, n: Node)
    requires IsListOrCell(n)
    ensures RemapNode(cs, ins, n) == n
  {
    forall k | 0 <= k < |n.children| ensures RemapNode(cs, true, n.children[k]) == n.children[k] {
      InsideUnchanged(cs, n.children[k]);
    }
  }

  lemma {:induction false} ChildrenTextBlank(ch: seq<Node>, k: nat)
    requires AllWhiteSpace(ChildrenText(ch)) && k < |ch|
    ensures AllWhiteSpace(TextContent(ch[k]))
    decreases k
  {
    var s := ChildrenText(ch);
    assert s == TextContent(ch[0]) + ChildrenText(ch[1..]);
    if k == 0 {
      forall m | 0 <= m < |TextContent(ch[0])| ensures IsWhiteSpace(TextContent(ch[0])[m]) {
        assert TextContent(ch[0])[m] == s[m];
      }
    } else {
      var t := ChildrenText(ch[1..]);
      forall m | 0 <= m < |t| ensures IsWhiteSpace(t[m]) {
        assert t[m] == s[|TextContent(ch[0])| + m];
      }
      ChildrenTextBlank(ch[1..], k - 1);
    }
  }

  /**
   * An element whose text is only white space, such as a paragraph holding
   * nothing but an image, stays as it is together with all it holds.
   */
  lemma {:induction false} BlankUnchanged(cs: Casing, ins: bool, n: Node)
    requires AllWhiteSpace(TextContent(n))
    ensures RemapNode(cs, ins, n) == n
    decreases n
  {
    TrimEmpty(TextContent(n));
    if n.Elem? {
      forall k | 0 <= k < |n.children| ensures RemapNode(cs, Inside(ins, n), n.children[k]) == n.children[k] {
        ChildrenTextBlank(n.children, k);
        BlankUnchanged(cs, Inside(ins, n), n.children[k]);
      }
    }
  }

  /** Tags outside H1-H7 and P are never rewritten. */
  lemma OtherTagsStay(cs: Casing, tag: string, text: string)
    requires tag !in {"H1", "H2", "H3", "H4", "H5", "H6", "H7", "P"}
    ensures Rewrite(cs, tag, text) == None
  {
  }

  /**
   * Headings H1-H4 move two levels down, to H3-H6, and hold their text upper-cased
   * in a STRONG element as their only child.
   */
  lemma HeadingsShift(cs: Casing, d: char, text: string)
    requires '1' <= d <= '4'
    ensures Rewrite(cs, ['H', d], text) == Some(Strong(['H', (d as int + 2) as char], Upper(cs, text)))
  {
  }

  /** A paragraph is rewritten exactly when it starts with "subdivisi" (any case) or is shorter than 60 UTF-16 units. */
  lemma ParagraphRule(cs: Casing, text: string)
    ensures Rewrite(cs, "P", text).Some? <==> StartsWithCI(text, Subdivision) || Utf16Length(text) < 60
    ensures Rewrite(cs, "P", text).Some? ==> Rewrite(cs, "P", text).value == Para(["P", "U"], ToTitleCase(cs, text))
  {
  }

  lemma ParaText(wrappers: seq<string>, text: string)
    requires "IMG" !in wrappers
    ensures TextContent(Para(wrappers, text)) == text
    ensures forall q :: ValidPath(Para(wrappers, text), q) ==> !IsElem(At(Para(wrappers, text), q), "IMG")
    decreases |wrappers|
  {
    var n := Para(wrappers, text);
    if wrappers != [] {
      ParaText(wrappers[1..], text);
      assert ChildrenText(n.children) == TextContent(n.children[0]) + ChildrenText([]);
      forall q | ValidPath(n, q) && q != [] ensures !IsElem(At(n, q), "IMG") {
        assert At(n, q) == At(n.children[0], q[1..]);
      }
    }
  }

  /**
   * A replacement keeps the element's text, upper-cased for headings H1-H4 and
   * title-cased otherwise, and drops all other markup: it holds no image.
   */
  lemma RewriteKeepsOnlyText(cs: Casing, tag: string, text: string)
    requires Rewrite(cs, tag, text).Some?
    ensures var m := Rewrite(cs, tag, text).value;
      && TextContent(m) == (if tag in {"H1", "H2", "H3", "H4"} then Upper(cs, text) else ToTitleCase(cs, text))
      && forall q :: ValidPath(m, q) ==> !IsElem(At(m, q), "IMG")
  {
    var m := Rewrite(cs, tag, text).value;
    if tag in {"H1", "H2", "H3", "H4"} {
      ParaText(["STRONG"], Upper(cs, text));
      assert m == Elem(m.tag, map[], [Para(["STRONG"], Upper(cs, text))]);
      ParaText([m.tag, "STRONG"], Upper(cs, text));
      assert m == Para([m.tag, "STRONG"], Upper(cs, text));
    } else if tag == "H5" {
      ParaText(["P", "B", "U"], ToTitleCase(cs, text));
    } else if tag == "H6" {
      ParaText(["P", "B"], ToTitleCase(cs, text));
    } else {
      ParaText(["P", "U"], ToTitleCase(cs, text));
    }
  }
}
