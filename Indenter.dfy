/**
 * `formatHTML` (public/main.js): the browser's indenter for the HTML the
 * server returns. A line break is put between every `><`, the text is split
 * into lines, each line is prefixed with spaces for the current level, and
 * the level goes down by two before a closing tag and up by two after an
 * opening one.
 */
module Indenter {
  import opened JsString

  /**
   * `html.replace(/></g, ">\n<")`: each `><` found left to right, without
   * overlaps, gets a line break. No `><` is left, and the first character stays.
   */
  function BreakTags(s: string): (r: string)
    ensures |r| >= |s|
    decreases |s|
  {
    if |s| >= 2 && s[0] == '>' && s[1] == '<' then ">\n<" + BreakTags(s[2..])
    else if s == [] then ""
    else [s[0]] + BreakTags(s[1..])
  }

  /** The break step keeps the first character. */
  lemma BreakTagsFirst(s: string)
    requires s != []
    ensures BreakTags(s)[0] == s[0]
  {
  }

  /** No `>` is directly followed by `<` in `s`. */
  predicate NoTagPair(s: string) {
    forall j, k :: 0 <= j < |s| && 0 <= k < |s| && k == j + 1 ==> !(s[j] == '>' && s[k] == '<')
  }

  /** No `><` is left after the break step. */
  lemma {:induction false} BreakTagsNoPair(s: string)
    ensures NoTagPair(BreakTags(s))
    decreases |s|
  {
    var r := BreakTags(s);
    if |s| >= 2 && s[0] == '>' && s[1] == '<' {
      var t := BreakTags(s[2..]);
      BreakTagsNoPair(s[2..]);
      assert r == ">\n<" + t;
      forall j, k | 0 <= j < |r| && 0 <= k < |r| && k == j + 1 ensures !(r[j] == '>' && r[k] == '<') {
        if j >= 3 {
          assert r[j] == t[j - 3] && r[k] == t[k - 3];
        } else if j == 2 {
          assert r[j] == '<';
        }
      }
    } else if s != [] {
      var t := BreakTags(s[1..]);
      BreakTagsNoPair(s[1..]);
      assert r == [s[0]] + t;
      forall j, k | 0 <= j < |r| && 0 <= k < |r| && k == j + 1 ensures !(r[j] == '>' && r[k] == '<') {
        if j >= 1 {
          assert r[j] == t[j - 1] && r[k] == t[k - 1];
        } else {
          BreakTagsFirst(s[1..]);
          assert r[k] == t[0] == s[1];
        }
      }
    }
  }

  /** `s` without its line breaks. */
  function DropBreaks(s: string): (r: string)
    ensures '\n' !in r
    decreases |s|
  {
    if s == [] then "" else (if s[0] == '\n' then "" else [s[0]]) + DropBreaks(s[1..])
  }

  lemma {:induction false} DropBreaksConcat(a: string, b: string)
    ensures DropBreaks(a + b) == DropBreaks(a) + DropBreaks(b)
    decreases |a|
  {
    if a != [] {
      var h := if a[0] == '\n' then "" else [a[0]];
      assert (a + b)[0] == a[0] && (a + b)[1..] == a[1..] + b;
      DropBreaksConcat(a[1..], b);
      assert DropBreaks(a + b) == h + DropBreaks(a[1..] + b);
      assert DropBreaks(a) == h + DropBreaks(a[1..]);
    } else {
      assert a + b == b;
    }
  }

  /** The break step only inserts line breaks: removing all line breaks gives the same text before and after it. */
  lemma {:induction false} BreakTagsOnlyBreaks(s: string)
    ensures DropBreaks(BreakTags(s)) == DropBreaks(s)
    decreases |s|
  {
    if |s| >= 2 && s[0] == '>' && s[1] == '<' {
      BreakTagsOnlyBreaks(s[2..]);
      DropBreaksConcat(">\n<", BreakTags(s[2..]));
      DropBreaksConcat(s[..2], s[2..]);
      assert s[..2] + s[2..] == s;
      assert DropBreaks(s[..2]) == "><";
      assert DropBreaks(">\n<") == "><";
    } else if s != [] {
      BreakTagsOnlyBreaks(s[1..]);
      DropBreaksConcat([s[0]], BreakTags(s[1..]));
      DropBreaksConcat([s[0]], s[1..]);
      assert [s[0]] + s[1..] == s;
    }
  }

  /** Texts that do not meet as `>` and `<` are broken separately. */
  lemma {:induction false} BreakTagsConcat(a: string, b: string)
    requires a == [] || b == [] || !(a[|a| - 1] == '>' && b[0] == '<')
    ensures BreakTags(a + b) == BreakTags(a) + BreakTags(b)
    decreases |a|
  {
    if a == [] {
      assert a + b == b;
    } else if |a| >= 2 && a[0] == '>' && a[1] == '<' {
      var t := a[2..];
      assert a == "><" + t;
      assert t == [] || t[|t| - 1] == a[|a| - 1];
      BreakTagsConcat(t, b);
      ConcatAfterPair(t, b);
    } else {
      var x, t := a[0], a[1..];
      assert a == [x] + t;
      assert t == [] || t[|t| - 1] == a[|a| - 1];
      BreakTagsConcat(t, b);
      assert |t + b| > 0 ==> (t + b)[0] == (if t == [] then b[0] else t[0]);
      ConcatAfterOne(x, t, b);
    }
  }

  /** The step of `BreakTagsConcat` when the text starts with `><`. */
  lemma ConcatAfterPair(t: string, b: string)
    requires BreakTags(t + b) == BreakTags(t) + BreakTags(b)
    ensures BreakTags("><" + t + b) == BreakTags("><" + t) + BreakTags(b)
  {
    PairConcat(t, b);
    PairCons(t);
    PrefixAssoc(">\n<", BreakTags(t), BreakTags(b), BreakTags(t + b));
  }

  lemma PairConcat(t: string, b: string)
    ensures BreakTags("><" + t + b) == ">\n<" + BreakTags(t + b)
  {
    assert "><" + t + b == "><" + (t + b);
    PairCons(t + b);
  }

  lemma PairCons(u: string)
    ensures BreakTags("><" + u) == ">\n<" + BreakTags(u)
  {
    var s := "><" + u;
    assert s[0] == '>' && s[1] == '<' && s[2..] == u;
    BreakPair(s);
  }

  /** The step of `BreakTagsConcat` when the text does not start with `><`. */
  lemma ConcatAfterOne(x: char, t: string, b: string)
    requires !(x == '>' && |t + b| > 0 && (t + b)[0] == '<')
    requires BreakTags(t + b) == BreakTags(t) + BreakTags(b)
    ensures BreakTags([x] + t + b) == BreakTags([x] + t) + BreakTags(b)
  {
    KeepConsConcat(x, t, b);
    KeepCons(x, t);
    PrefixAssoc([x], BreakTags(t), BreakTags(b), BreakTags(t + b));
  }

  lemma KeepConsConcat(x: char, t: string, b: string)
    requires !(x == '>' && |t + b| > 0 && (t + b)[0] == '<')
    ensures BreakTags([x] + t + b) == [x] + BreakTags(t + b)
  {
    assert [x] + t + b == [x] + (t + b);
    KeepCons(x, t + b);
  }

  lemma PrefixAssoc(h: string, p: string, q: string, pq: string)
    requires pq == p + q
    ensures h + pq == (h + p) + q
  {
  }

  /** A character that does not start `><` is kept, and the rest is broken on its own. */
  lemma KeepCons(x: char, u: string)
    requires !(x == '>' && |u| > 0 && u[0] == '<')
    ensures BreakTags([x] + u) == [x] + BreakTags(u)
  {
    var s := [x] + u;
    assert s[0] == x && s[1..] == u;
    assert |s| >= 2 ==> s[1] == u[0];
  }

  lemma BreakPair(s: string)
    requires |s| >= 2 && s[0] == '>' && s[1] == '<'
    ensures BreakTags(s) == ">\n<" + BreakTags(s[2..])
  {
  }

  /** The lines `formatHTML` works on. */
  function Pieces(html: string): (r: seq<string>)
    ensures |r| >= 1 && forall k :: 0 <= k < |r| ==> '\n' !in r[k]
  {
    Split(BreakTags(html), '\n')
  }

  /** `/^<\/\w/`: the line starts with a closing tag. */
  predicate Closes(line: string)
    ensures Closes(line) ==> !OpenTagLine(line)
  {
    |line| >= 3 && line[0] == '<' && line[1] == '/' && IsAsciiWord(line[2])
  }

  /**
   * `/^<\w[^>]*[^\/]>$/`: `<`, a word character, a run free of `>`, one
   * character other than `/`, and a final `>`, the whole line. The tag name
   * must therefore have two characters at least: `<p>` does not match.
   */
  predicate OpenTagLine(line: string)
    ensures OpenTagLine(line) ==> |line| >= 4 && line[1] != '/' && line[|line| - 1] == '>'
  {
    && |line| >= 4 && line[0] == '<' && IsAsciiWord(line[1])
    && Lacks(line, 2, |line| - 2, '>')
    && line[|line| - 2] != '/' && line[|line| - 1] == '>'
  }

  /** The line raises the level of the lines after it. */
  predicate Opens(line: string)
    ensures Opens(line) ==> !Closes(line)
  {
    OpenTagLine(line) && !Includes(line, "</")
  }

  /** `" ".repeat(n)`; the ensures is the definition, spelled out for callers. */
  function Spaces(n: nat): (r: string)
    ensures |r| == n && forall k :: 0 <= k < n ==> r[k] == ' '
  {
    seq(n, k => ' ')
  }

  /** The level a line is printed at, from the level before it: two less before a closing tag, never below zero. */
  function LevelOf(indent: int, line: string): (r: int)
    ensures 0 <= r && indent - 2 <= r
    ensures indent >= 0 ==> r <= indent
    ensures indent >= 0 && !Closes(line) ==> r == indent
  {
    var lowered := if Closes(line) then indent - 2 else indent;
    if lowered < 0 then 0 else lowered
  }

  /** The level after a line. */
  function NextLevel(indent: int, line: string): (r: int)
    ensures 0 <= r && indent - 2 <= r
    ensures indent >= 0 ==> r <= indent + 2
    ensures Opens(line) ==> r >= 2
    ensures indent >= 0 && !Opens(line) && !Closes(line) ==> r == indent
  {
    var lvl := LevelOf(indent, line);
    if Opens(line) then lvl + 2 else lvl
  }

  /** The lines printed for `pieces`, from level `indent`. */
  function Render(pieces: seq<string>, indent: int): (r: seq<string>)
    requires indent >= 0
    ensures |r| == |pieces|
    decreases |pieces|
  {
    if pieces == [] then []
    else [Spaces(LevelOf(indent, pieces[0])) + pieces[0]] + Render(pieces[1..], NextLevel(indent, pieces[0]))
  }

  /** The levels the lines are printed at. */
  function Levels(pieces: seq<string>, indent: int): (r: seq<int>)
    requires indent >= 0
    ensures |r| == |pieces| && forall k :: 0 <= k < |r| ==> r[k] >= 0
    decreases |pieces|
  {
    if pieces == [] then []
    else [LevelOf(indent, pieces[0])] + Levels(pieces[1..], NextLevel(indent, pieces[0]))
  }

  /** `formatHTML`, as a map over the lines threading the `indent` counter, then a join. */
  method FormatHtml(html: string) returns (out: string)
    ensures out == Join(Render(Pieces(html), 0), '\n')
  {
    var pieces := Split(BreakTags(html), '\n');
    var indent: int := 0;
    var lines: seq<string> := [];
    var i := 0;
    while i < |pieces|
      invariant 0 <= i <= |pieces|
      invariant indent >= 0
      invariant Render(pieces, 0) == lines + Render(pieces[i..], indent)
    {
      var line := pieces[i];
      ghost var old_indent := indent;
      RenderStep(pieces, i, indent);
      if Closes(line) {
        indent := indent - 2;
      }
      if indent < 0 {
        indent := 0;
      }
      assert indent == LevelOf(old_indent, line);
      var formatted := Spaces(indent) + line;
      if OpenTagLine(line) && !Includes(line, "</") {
        indent := indent + 2;
      }
      assert indent == NextLevel(old_indent, line);
      lines := lines + [formatted];
      i := i + 1;
    }
    assert pieces[i..] == [];
    assert Render(pieces, 0) == lines;
    out := Join(lines, '\n');
  }

  lemma RenderStep(ps: seq<string>, i: nat, indent: int)
    requires i < |ps| && indent >= 0
    ensures Render(ps[i..], indent) == [Spaces(LevelOf(indent, ps[i])) + ps[i]] + Render(ps[i + 1..], NextLevel(indent, ps[i]))
  {
    assert ps[i..][1..] == ps[i + 1..];
  }

  // ---------------------------------------------------------------------------
  // The level counter

  /** The level never goes below zero and stays even: it moves by two and is clamped at zero. */
  lemma LevelEven(indent: int, line: string)
    requires indent >= 0 && indent % 2 == 0
    ensures LevelOf(indent, line) >= 0 && LevelOf(indent, line) % 2 == 0
    ensures NextLevel(indent, line) >= 0 && NextLevel(indent, line) % 2 == 0
  {
  }

  /** Every printed level is even and not negative. */
  lemma {:induction false} LevelsEven(pieces: seq<string>, indent: int)
    requires indent >= 0 && indent % 2 == 0
    ensures forall k :: 0 <= k < |Levels(pieces, indent)| ==> Levels(pieces, indent)[k] >= 0 && Levels(pieces, indent)[k] % 2 == 0
    decreases |pieces|
  {
    if pieces != [] {
      LevelEven(indent, pieces[0]);
      LevelsEven(pieces[1..], NextLevel(indent, pieces[0]));
    }
  }

  /** Each printed line is its piece with only spaces before it, as many as its level. */
  lemma {:induction false} RenderLines(pieces: seq<string>, indent: int)
    requires indent >= 0
    ensures |Render(pieces, indent)| == |pieces| && |Levels(pieces, indent)| == |pieces|
    ensures forall k :: 0 <= k < |pieces| ==>
      Levels(pieces, indent)[k] >= 0 && Render(pieces, indent)[k] == Spaces(Levels(pieces, indent)[k]) + pieces[k]
    decreases |pieces|
  {
    if pieces != [] {
      RenderLines(pieces[1..], NextLevel(indent, pieces[0]));
      var r, l := Render(pieces, indent), Levels(pieces, indent);
      forall k | 1 <= k < |pieces|
        ensures l[k] >= 0 && r[k] == Spaces(l[k]) + pieces[k]
      {
        assert r[k] == Render(pieces[1..], NextLevel(indent, pieces[0]))[k - 1];
        assert l[k] == Levels(pieces[1..], NextLevel(indent, pieces[0]))[k - 1];
      }
    }
  }

  /** The first line is never indented. */
  lemma FirstLineFlush(html: string)
    ensures Levels(Pieces(html), 0)[0] == 0
  {
  }

  /**
   * The output has one line per piece, and each is that piece with spaces in
   * front, as many as its level: splitting the output on line breaks gives
   * these lines back.
   */
  lemma OneLinePerPiece(html: string)
    ensures var out := Join(Render(Pieces(html), 0), '\n');
      var ls := Split(out, '\n');
      && |ls| == |Pieces(html)|
      && forall k :: 0 <= k < |ls| ==> ls[k] == Spaces(Levels(Pieces(html), 0)[k]) + Pieces(html)[k]
  {
    var ps := Pieces(html);
    var r := Render(ps, 0);
    RenderLines(ps, 0);
    SplitJoin(r, '\n');
  }

  /** Without `><` the break step changes nothing. */
  lemma {:induction false} BreakTagsNone(s: string)
    requires forall k :: 0 <= k < |s| - 1 ==> !(s[k] == '>' && s[k + 1] == '<')
    ensures BreakTags(s) == s
    decreases |s|
  {
    if s != [] {
      assert !(|s| >= 2 && s[0] == '>' && s[1] == '<');
      forall k | 0 <= k < |s[1..]| - 1 ensures !(s[1..][k] == '>' && s[1..][k + 1] == '<') {
        assert s[1..][k] == s[k + 1] && s[1..][k + 1] == s[k + 2];
      }
      BreakTagsNone(s[1..]);
      assert [s[0]] + s[1..] == s;
    }
  }

  /** Text with neither `><` nor a line break comes back as it was; in particular "" gives "". */
  lemma Unchanged(html: string)
    requires forall k :: 0 <= k < |html| - 1 ==> !(html[k] == '>' && html[k + 1] == '<')
    requires '\n' !in html
    ensures Join(Render(Pieces(html), 0), '\n') == html
  {
    BreakTagsNone(html);
    SplitFree(html, '\n');
    assert Spaces(0) + html == html;
  }

  lemma EmptyStaysEmpty()
    ensures Join(Render(Pieces(""), 0), '\n') == ""
  {
    Unchanged("");
  }

  // ---------------------------------------------------------------------------
  // How one line moves the level

  /**
   * A line starting with a closing tag is printed two less than the level
   * before it, but not below zero, and the level after it is that one: it
   * never also raises the level.
   */
  lemma ClosingLine(indent: int, line: string)
    requires indent >= 0 && Closes(line)
    ensures LevelOf(indent, line) == (if indent >= 2 then indent - 2 else 0)
    ensures !Opens(line) && NextLevel(indent, line) == LevelOf(indent, line)
  {
  }

  /** A line raises the level only when it is an opening tag line holding no `</`. */
  lemma RaisingLine(indent: int, line: string)
    requires indent >= 0
    ensures NextLevel(indent, line) == LevelOf(indent, line) + 2 <==> OpenTagLine(line) && !Includes(line, "</")
    ensures NextLevel(indent, line) != LevelOf(indent, line) + 2 ==> NextLevel(indent, line) == LevelOf(indent, line)
  {
  }

  /** A line that does not start with `<`, such as text, leaves the level as it was. */
  lemma TextLine(indent: int, line: string)
    requires indent >= 0 && (line == [] || line[0] != '<')
    ensures LevelOf(indent, line) == indent && NextLevel(indent, line) == indent
  {
  }

  lemma {:induction false} LacksAll(s: string, i: nat, j: nat, c: char)
    requires i <= j <= |s| && forall m :: i <= m < j ==> s[m] != c
    ensures Lacks(s, i, j, c)
    decreases j - i
  {
    if i < j {
      LacksAll(s, i + 1, j, c);
    }
  }

  /** `<h3>` and `<div class=x>` open a level. */
  lemma OpeningExamples()
    ensures Opens("<h3>") && Opens("<div class=x>")
  {
    var d := "<div class=x>";
    LacksAll(d, 2, |d| - 2, '>');
    NoCloseAfterFirst(d);
  }

  /** A line whose only `<` is its first character, not followed by `/`, holds no `</`. */
  lemma NoCloseAfterFirst(s: string)
    requires |s| >= 2 && s[1] != '/' && forall m :: 1 <= m < |s| ==> s[m] != '<'
    ensures !Includes(s, "</")
  {
    forall k | 0 <= k <= |s| - 2 ensures !OccursAt(s, k, "</") {
      assert s[k..k + 2][0] == s[k] && s[k..k + 2][1] == s[k + 1];
    }
  }

  /** One-letter tags, self-closing tags and whole elements on one line do not. */
  lemma NonOpeningExamples()
    ensures !Opens("<p>") && !Opens("<b>") && !Opens("<br/>") && !Opens("<strong>X</strong>")
  {
    var s := "<strong>X</strong>";
    assert OccursAt(s, 9, "</");
  }
}
