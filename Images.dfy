/**
 * The image pass of `convertirHTML` (server.cjs): every paragraph below the
 * body that holds an image is centred with a vertical margin, and the first
 * image inside it, in document order, is made to fit the width.
 *
 * Style changes alter no tag, text or child list, so the pass is specified
 * node by node: the shape of the tree is kept and each element's style gains
 * the declarations the pass sets on it.
 */
module Images {
  import opened JsString
  import opened Dom

  /** `p.style.textAlign = "center"` and `p.style.margin = "10px 0"`. */
  const ParagraphStyle: map<string, string> := map["text-align" := "center", "margin" := "10px 0"]

  /** `img.style.maxWidth = "100%"`, `img.style.height = "auto"` and `img.style.display = "inline-block"`. */
  const ImageStyle: map<string, string> := map["max-width" := "100%", "height" := "auto", "display" := "inline-block"]

  predicate AllValid(n: Node, ps: seq<Path>) {
    forall j :: 0 <= j < |ps| ==> ValidPath(n, ps[j])
  }

  /** The index of the first of `ps[i..]` that leads to an IMG. */
  function FindImage(n: Node, ps: seq<Path>, i: nat): (r: Option<nat>)
    requires i <= |ps| && AllValid(n, ps)
    ensures r.Some? ==> i <= r.value < |ps| && IsElem(At(n, ps[r.value]), "IMG")
    ensures forall j :: i <= j < |ps| && (r.None? || j < r.value) ==> !IsElem(At(n, ps[j]), "IMG")
    decreases |ps| - i
  {
    if i == |ps| then None
    else if IsElem(At(n, ps[i]), "IMG") then Some(i)
    else FindImage(n, ps, i + 1)
  }

  /** `querySelector("img")` on the element `n`: the first IMG strictly below it, in document order. */
  function FirstImage(n: Node): (r: Option<Path>)
    requires n.Elem?
    ensures r.Some? ==> r.value != [] && ValidPath(n, r.value) && IsElem(At(n, r.value), "IMG")
  {
    ElemPathsValid(n);
    ElemPathsOrder(n);
    var ps := ElemPaths(n);
    match FindImage(n, ps, 1)
    case None => None
    case Some(i) => assert !(ps[i] <= ps[0]); Some(ps[i])
  }

  /** The paths of `ps` that lead to elements with tag `tag`, in their order. */
  function Matching(n: Node, ps: seq<Path>, tag: string): (r: seq<Path>)
    requires AllValid(n, ps)
    ensures forall j :: 0 <= j < |r| ==> ValidPath(n, r[j]) && IsElem(At(n, r[j]), tag)
    ensures forall j :: 0 <= j < |ps| && IsElem(At(n, ps[j]), tag) ==> ps[j] in r
    ensures forall q :: q in r ==> q in ps
  {
    if ps == [] then []
    else (if IsElem(At(n, ps[0]), tag) then [ps[0]] else []) + Matching(n, ps[1..], tag)
  }

  /** `querySelectorAll("p")` on the body: its P descendants in document order. */
  function Paragraphs(body: Node): (r: seq<Path>)
    requires body.Elem?
    ensures forall j :: 0 <= j < |r| ==> ValidPath(body, r[j]) && IsElem(At(body, r[j]), "P")
  {
    ElemPathsValid(body);
    Matching(body, ElemPaths(body)[1..], "P")
  }

  /** The paragraphs among the first `i` of `ps` that hold an image. */
  function ParasUpTo(n: Node, ps: seq<Path>, i: nat): set<Path>
    requires i <= |ps| && forall j :: 0 <= j < |ps| ==> ValidPath(n, ps[j]) && At(n, ps[j]).Elem?
  {
    if i == 0 then {}
    else ParasUpTo(n, ps, i - 1) + (if FirstImage(At(n, ps[i - 1])).Some? then {ps[i - 1]} else {})
  }

  /** The first images of the paragraphs among the first `i` of `ps`. */
  function TargetsUpTo(n: Node, ps: seq<Path>, i: nat): set<Path>
    requires i <= |ps| && forall j :: 0 <= j < |ps| ==> ValidPath(n, ps[j]) && At(n, ps[j]).Elem?
  {
    if i == 0 then {}
    else
      var img := FirstImage(At(n, ps[i - 1]));
      TargetsUpTo(n, ps, i - 1) + (if img.Some? then {ps[i - 1] + img.value} else {})
  }

  /** The declarations the pass adds to the element at `q`. */
  function Extra(q: Path, paras: set<Path>, images: set<Path>): map<string, string> {
    (if q in paras then ParagraphStyle else map[]) + (if q in images then ImageStyle else map[])
  }

  /** `res` is `orig` with the styles set on `paras` and `images` added, and nothing else changed. */
  ghost predicate StyledBy(orig: Node, res: Node, paras: set<Path>, images: set<Path>) {
    && Shape(res) == Shape(orig)
    && forall q :: ValidPath(orig, q) && At(orig, q).Elem? ==>
         ValidPath(res, q) && At(res, q).Elem? && At(res, q).style == At(orig, q).style + Extra(q, paras, images)
  }

  function ImageParagraphs(body: Node): set<Path>
    requires body.Elem?
  {
    var ps := Paragraphs(body);
    ParasUpTo(body, ps, |ps|)
  }

  function ImageTargets(body: Node): set<Path>
    requires body.Elem?
  {
    var ps := Paragraphs(body);
    TargetsUpTo(body, ps, |ps|)
  }

  /** `res` is the body `orig` after the image pass. */
  ghost predicate ImagePassOf(orig: Node, res: Node)
    requires orig.Elem?
    ensures ImagePassOf(orig, res) ==> res.Elem? && res.tag == orig.tag && |res.children| == |orig.children|
  {
    StyledBy(orig, res, ImageParagraphs(orig), ImageTargets(orig))
  }

  // ---------------------------------------------------------------------------

  lemma DisjointOverrides(m: map<string, string>, a: map<string, string>, b: map<string, string>)
    requires a.Keys !! b.Keys
    ensures (m + a) + b == (m + b) + a
  {
  }

  lemma Overridden(m: map<string, string>, a: map<string, string>, b: map<string, string>)
    requires a.Keys <= b.Keys
    ensures (m + a) + b == m + b
  {
  }

  lemma UnionAssoc(m: map<string, string>, a: map<string, string>, b: map<string, string>)
    ensures m + (a + b) == (m + a) + b
  {
  }

  lemma StyleKeys()
    ensures ParagraphStyle.Keys !! ImageStyle.Keys
  {
  }

  /** Adding a paragraph adds the paragraph declarations to what its element gains. */
  lemma ExtraAddParagraph(q: Path, paras: set<Path>, images: set<Path>)
    ensures Extra(q, paras + {q}, images) == Extra(q, paras, images) + ParagraphStyle
  {
    var y: map<string, string> := if q in images then ImageStyle else map[];
    StyleKeys();
    DisjointOverrides(map[], y, ParagraphStyle);
    if q in paras {
      Overridden(map[], ParagraphStyle, ParagraphStyle);
      DisjointOverrides(ParagraphStyle, y, ParagraphStyle);
    }
  }

  /** Adding an image adds the image declarations to what its element gains. */
  lemma ExtraAddImage(q: Path, paras: set<Path>, images: set<Path>)
    ensures Extra(q, paras, images + {q}) == Extra(q, paras, images) + ImageStyle
  {
    var x: map<string, string> := if q in paras then ParagraphStyle else map[];
    var y: map<string, string> := if q in images then ImageStyle else map[];
    Overridden(x, y, ImageStyle);
  }

  /** Setting `kvs` on one element keeps the tree styled as the sets say, once they grant `x` exactly `kvs` more. */
  lemma RestyleOne(orig: Node, b: Node, paras: set<Path>, images: set<Path>, paras': set<Path>, images': set<Path>,
                   x: Path, kvs: map<string, string>)
    requires StyledBy(orig, b, paras, images)
    requires ValidPath(b, x) && At(b, x).Elem?
    requires forall q :: q != x ==> Extra(q, paras', images') == Extra(q, paras, images)
    requires Extra(x, paras', images') == Extra(x, paras, images) + kvs
    ensures StyledBy(orig, RestyleAt(b, x, kvs), paras', images')
  {
    var b1 := RestyleAt(b, x, kvs);
    forall q | ValidPath(orig, q) && At(orig, q).Elem?
      ensures ValidPath(b1, q) && At(b1, q).Elem? && At(b1, q).style == At(orig, q).style + Extra(q, paras', images')
    {
      ShapeAt(orig, b, q);
      ShapeAt(b, b1, q);
      if q == x {
        UnionAssoc(At(orig, q).style, Extra(q, paras, images), kvs);
      } else {
        RestyleElsewhere(b, x, kvs, q);
      }
    }
  }

  /**
   * `querySelector("img")` finds the first IMG in document order: whenever
   * the `j`-th element below `n` is an IMG, an image is found, and it is
   * listed no later than that one.
   */
  lemma FirstImageFirst(n: Node, j: nat)
    requires n.Elem? && 1 <= j < |ElemPaths(n)|
    requires ValidPath(n, ElemPaths(n)[j]) && IsElem(At(n, ElemPaths(n)[j]), "IMG")
    ensures FirstImage(n).Some? && FirstImage(n).value in ElemPaths(n)[1..j + 1]
  {
    ElemPathsValid(n);
    var ps := ElemPaths(n);
    var f := FindImage(n, ps, 1);
    assert f.Some? && f.value <= j;
    assert ps[f.value] == ps[1..j + 1][f.value - 1];
  }

  /** An image is found whenever some element strictly below `n` is an IMG. */
  lemma ImageFound(n: Node, q: Path)
    requires n.Elem? && q != [] && ValidPath(n, q) && IsElem(At(n, q), "IMG")
    ensures FirstImage(n).Some?
  {
    Descendants(n);
    var s := ElemPaths(n)[1..];
    var j :| 0 <= j < |s| && s[j] == q;
    FirstImageFirst(n, j + 1);
  }

  /** `querySelector("img")` looks at tags and document order only, which a style change keeps. */
  lemma FirstImageShape(a: Node, b: Node)
    requires a.Elem? && b.Elem? && Shape(a) == Shape(b)
    ensures FirstImage(a) == FirstImage(b)
  {
    ElemPathsShape(a, b);
    ElemPathsValid(a);
    ElemPathsValid(b);
    var ps := ElemPaths(a);
    forall j | 0 <= j < |ps| ensures IsElem(At(a, ps[j]), "IMG") == IsElem(At(b, ps[j]), "IMG") {
      ShapeAt(a, b, ps[j]);
    }
    FindImageSame(a, b, ps, 1);
  }

  lemma {:induction false} FindImageSame(a: Node, b: Node, ps: seq<Path>, i: nat)
    requires i <= |ps| && AllValid(a, ps) && AllValid(b, ps)
    requires forall j :: 0 <= j < |ps| ==> IsElem(At(a, ps[j]), "IMG") == IsElem(At(b, ps[j]), "IMG")
    ensures FindImage(a, ps, i) == FindImage(b, ps, i)
    decreases |ps| - i
  {
    if i < |ps| {
      FindImageSame(a, b, ps, i + 1);
    }
  }

  /** One paragraph of the pass: its own style and its first image's style gain their declarations. */
  lemma StyleStep(orig: Node, b: Node, paras: set<Path>, images: set<Path>, p: Path, r: Path)
    requires StyledBy(orig, b, paras, images)
    requires ValidPath(b, p) && At(b, p).Elem? && r != []
    requires ValidPath(RestyleAt(b, p, ParagraphStyle), p + r) && At(RestyleAt(b, p, ParagraphStyle), p + r).Elem?
    ensures StyledBy(orig, RestyleAt(RestyleAt(b, p, ParagraphStyle), p + r, ImageStyle), paras + {p}, images + {p + r})
  {
    ExtraAddParagraph(p, paras, images);
    RestyleOne(orig, b, paras, images, paras + {p}, images, p, ParagraphStyle);
    ExtraAddImage(p + r, paras + {p}, images);
    RestyleOne(orig, RestyleAt(b, p, ParagraphStyle), paras + {p}, images, paras + {p}, images + {p + r}, p + r, ImageStyle);
  }

  // ---------------------------------------------------------------------------
  // Which elements the pass styles

  /** `querySelectorAll("p")` lists exactly the P elements below the body. */
  lemma ParagraphsMember(body: Node, q: Path)
    requires body.Elem?
    ensures q in Paragraphs(body) <==> q != [] && ValidPath(body, q) && IsElem(At(body, q), "P")
  {
    Descendants(body);
    ElemPathsValid(body);
    var s := ElemPaths(body)[1..];
    if q in Paragraphs(body) {
      var j :| 0 <= j < |s| && s[j] == q;
    }
    if q != [] && ValidPath(body, q) && IsElem(At(body, q), "P") {
      var j :| 0 <= j < |s| && s[j] == q;
    }
  }

  lemma {:induction false} ParasUpToMember(n: Node, ps: seq<Path>, i: nat, q: Path)
    requires i <= |ps| && forall j :: 0 <= j < |ps| ==> ValidPath(n, ps[j]) && At(n, ps[j]).Elem?
    ensures q in ParasUpTo(n, ps, i) <==> exists j :: 0 <= j < i && ps[j] == q && FirstImage(At(n, ps[j])).Some?
  {
    if i > 0 {
      ParasUpToMember(n, ps, i - 1, q);
    }
  }

  lemma {:induction false} TargetsUpToHas(n: Node, ps: seq<Path>, i: nat, j: nat)
    requires i <= |ps| && forall j :: 0 <= j < |ps| ==> ValidPath(n, ps[j]) && At(n, ps[j]).Elem?
    requires j < i && FirstImage(At(n, ps[j])).Some?
    ensures ps[j] + FirstImage(At(n, ps[j])).value in TargetsUpTo(n, ps, i)
  {
    if j < i - 1 {
      TargetsUpToHas(n, ps, i - 1, j);
    }
  }

  lemma {:induction false} TargetsUpToOwner(n: Node, ps: seq<Path>, i: nat, t: Path) returns (j: nat)
    requires i <= |ps| && forall j :: 0 <= j < |ps| ==> ValidPath(n, ps[j]) && At(n, ps[j]).Elem?
    requires t in TargetsUpTo(n, ps, i)
    ensures j < i && FirstImage(At(n, ps[j])).Some? && t == ps[j] + FirstImage(At(n, ps[j])).value
  {
    var img := FirstImage(At(n, ps[i - 1]));
    if img.Some? && t == ps[i - 1] + img.value {
      j := i - 1;
    } else {
      j := TargetsUpToOwner(n, ps, i - 1, t);
    }
  }

  /** The pass centres exactly the P elements below the body that hold an image. */
  lemma ImageParagraphsMember(body: Node, q: Path)
    requires body.Elem?
    ensures q in ImageParagraphs(body) <==>
      q != [] && ValidPath(body, q) && IsElem(At(body, q), "P") && FirstImage(At(body, q)).Some?
  {
    var ps := Paragraphs(body);
    ParagraphsMember(body, q);
    ParasUpToMember(body, ps, |ps|, q);
  }

  /** Each such paragraph's first image, in document order, is fitted to the width. */
  lemma ImageTargetOf(body: Node, q: Path)
    requires body.Elem?
    requires q != [] && ValidPath(body, q) && IsElem(At(body, q), "P") && FirstImage(At(body, q)).Some?
    ensures q + FirstImage(At(body, q)).value in ImageTargets(body)
  {
    var ps := Paragraphs(body);
    ParagraphsMember(body, q);
    var j :| 0 <= j < |ps| && ps[j] == q;
    TargetsUpToHas(body, ps, |ps|, j);
  }

  /** Only such images are fitted: each one is the first image of an image paragraph. */
  lemma ImageTargetOwner(body: Node, t: Path) returns (q: Path)
    requires body.Elem? && t in ImageTargets(body)
    ensures q != [] && ValidPath(body, q) && IsElem(At(body, q), "P") && FirstImage(At(body, q)).Some?
    ensures t == q + FirstImage(At(body, q)).value
    ensures ValidPath(body, t) && IsElem(At(body, t), "IMG")
  {
    var ps := Paragraphs(body);
    var j := TargetsUpToOwner(body, ps, |ps|, t);
    q := ps[j];
    ParagraphsMember(body, q);
    AtConcat(body, q, FirstImage(At(body, q)).value);
  }

  /**
   * The effect of the pass on one element: the tree keeps its shape; an image
   * paragraph is centred with margin `10px 0`; a fitted image gets maximum
   * width `100%`, automatic height and `inline-block` display; every other
   * element keeps its style as it was.
   */
  lemma ImagePassEffects(orig: Node, res: Node, q: Path)
    requires orig.Elem? && ImagePassOf(orig, res)
    requires ValidPath(orig, q) && At(orig, q).Elem?
    ensures Shape(res) == Shape(orig) && ValidPath(res, q) && At(res, q).Elem? && At(res, q).tag == At(orig, q).tag
    ensures var st := At(res, q).style;
      q in ImageParagraphs(orig) ==> "text-align" in st && st["text-align"] == "center" && "margin" in st && st["margin"] == "10px 0"
    ensures var st := At(res, q).style;
      q in ImageTargets(orig) ==>
        && "max-width" in st && st["max-width"] == "100%" && "height" in st && st["height"] == "auto"
        && "display" in st && st["display"] == "inline-block"
    ensures q !in ImageParagraphs(orig) && q !in ImageTargets(orig) ==> At(res, q).style == At(orig, q).style
  {
    ShapeAt(orig, res, q);
    var paras, images := ImageParagraphs(orig), ImageTargets(orig);
    if q in paras {
      StyleKeys();
      var y: map<string, string> := if q in images then ImageStyle else map[];
      assert Extra(q, paras, images) == ParagraphStyle + y;
      UnionAssoc(At(orig, q).style, ParagraphStyle, y);
    }
  }
}
