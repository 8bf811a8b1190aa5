/**
 * `convertirHTML` (server.cjs) up to the pretty-printer: the parsed body is
 * changed in place by two passes, each over a snapshot list taken before it
 * starts. The remap pass replaces headings and short paragraphs; the image
 * pass then styles the paragraphs that hold an image.
 */
module Converter {
  import opened JsString
  import opened Dom
  import opened Remap
  import opened Walk
  import opened Images

  /** The document being converted: its body element, changed in place. */
  class Document {
    var body: Node

    constructor(body0: Node)
      ensures body == body0
    {
      body := body0;
    }

    /** `node.replaceWith(newNode)`: the node at `p`, below the body, gives its place to `m`. */
    method ReplaceWith(p: Path, m: Node)
      requires ValidPath(body, p) && p != []
      modifies this
      ensures body == ReplaceAt(old(body), p, m)
    {
      body := ReplaceAt(body, p, m);
    }

    /** `el.style.x = v` for each declaration of `kvs`, on the element at `p`. */
    method SetStyle(p: Path, kvs: map<string, string>)
      requires ValidPath(body, p) && At(body, p).Elem?
      modifies this
      ensures body == RestyleAt(old(body), p, kvs)
    {
      body := RestyleAt(body, p, kvs);
    }

    /**
     * The remap pass: every element of the snapshot `querySelectorAll("*")`
     * is visited in document order. A node whose ancestor was replaced is
     * detached, and replacing it has no effect on the document, so the walk
     * skips it; the others are found as they were in the original body.
     */
    method Remap(cs: Casing)
      requires body.Elem?
      modifies this
      ensures body == RemapBody(cs, old(body))
    {
      ghost var orig := body;
      var snap := ElemPaths(body)[1..];
      var replaced: set<Path> := {};
      WithinUntouched(cs, {}, false, [], orig);
      var i := 0;
      while i < |snap|
        invariant 0 <= i <= |snap| && snap == ElemPaths(orig)[1..]
        invariant WalkState(cs, orig, Seen(snap, i), replaced, body)
      {
        SnapshotStep(orig, i);
        replaced := Visit(cs, snap[i], orig, Seen(snap, i), replaced);
        i := i + 1;
      }
      SnapshotDone(cs, orig);
    }

    /**
     * The callback of the remap pass on the element at `p`: its tag, trimmed
     * text and `closest("li, td")` decide whether it is replaced. `replaced`
     * is what the walk has replaced so far; a node below one of those is
     * detached and left alone.
     */
    method Visit(cs: Casing, p: Path, ghost orig: Node, ghost V: set<Path>, replaced: set<Path>) returns (replaced': set<Path>)
      requires ValidPath(orig, p) && forall q :: q in V ==> !(p <= q)
      requires WalkState(cs, orig, V, replaced, body)
      requires orig.Elem? && At(orig, p).Elem? && p != []
      modifies this
      ensures WalkState(cs, orig, V + {p}, replaced', body)
    {
      WalkStep(cs, orig, V, replaced, body, p);
      replaced' := replaced;
      if !Detached(replaced, p) {
        var node := At(body, p);
        var inside := Inside(InsideAbove(false, body, p), node);
        var text := Trim(TextContent(node));
        if !inside && |text| > 0 {
          match Rewrite(cs, node.tag, text)
          case Some(m) =>
            ReplaceWith(p, m);
            replaced' := replaced + {p};
          case None =>
        }
      }
    }

    /**
     * The image pass: for each paragraph of the snapshot
     * `querySelectorAll("p")` whose `querySelector("img")` finds an image,
     * the paragraph is centred with a vertical margin and that image is
     * fitted to the width.
     */
    method StyleImages()
      requires body.Elem?
      modifies this
      ensures ImagePassOf(old(body), body)
    {
      ghost var orig := body;
      var ps := Paragraphs(body);
      var i := 0;
      while i < |ps|
        invariant 0 <= i <= |ps| && ps == Paragraphs(orig)
        invariant StyledBy(orig, body, ParasUpTo(orig, ps, i), TargetsUpTo(orig, ps, i))
      {
        StyleParagraph(ps[i], orig, ps, i);
        i := i + 1;
      }
    }

    /** The callback of the image pass on the paragraph at `p`, the `i`-th of the snapshot `ps`. */
    method StyleParagraph(p: Path, ghost orig: Node, ghost ps: seq<Path>, ghost i: nat)
      requires orig.Elem? && ps == Paragraphs(orig) && i < |ps| && p == ps[i]
      requires StyledBy(orig, body, ParasUpTo(orig, ps, i), TargetsUpTo(orig, ps, i))
      modifies this
      ensures StyledBy(orig, body, ParasUpTo(orig, ps, i + 1), TargetsUpTo(orig, ps, i + 1))
    {
      ghost var paras, images := ParasUpTo(orig, ps, i), TargetsUpTo(orig, ps, i);
      ShapeAt(orig, body, p);
      var img := FirstImage(At(body, p));
      FirstImageShape(At(orig, p), At(body, p));
      if img.Some? {
        var r := img.value;
        ghost var b := body;
        SetStyle(p, ParagraphStyle);
        ShapeAt(b, body, p);
        FirstImageShape(At(b, p), At(body, p));
        AtConcat(body, p, r);
        SetStyle(p + r, ImageStyle);
        StyleStep(orig, b, paras, images, p, r);
      }
    }
  }

  /** The tree part of `convertirHTML`: the remap pass, then the image pass, on the body `body`. */
  method ConvertTree(cs: Casing, body: Node) returns (res: Node)
    requires body.Elem?
    ensures RemapBody(cs, body).Elem? && ImagePassOf(RemapBody(cs, body), res)
  {
    var doc := new Document(body);
    doc.Remap(cs);
    doc.StyleImages();
    res := doc.body;
  }
}
