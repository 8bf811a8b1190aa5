/**
 * `limpiarHTML` (server.cjs): five global, case-insensitive regular-expression
 * replacements applied in a fixed order, then `trim`.
 *
 * Each replacement is modelled as the left-to-right scan that `String.prototype.replace`
 * performs with the `g` flag: at each position the pattern is tried; on a match
 * the replacement is emitted and the scan resumes after the match, otherwise the
 * character is kept and the scan moves on by one.
 */
module Sanitizer {
  import opened JsString

  /** The patterns of `limpiarHTML`. */
  datatype Pattern =
    | Attribute(name: string)  // /NAME=(["'])(.*?)\1/gi, replaced by ""
    | Span                     // /<span[^>]*>(.*?)<\/span>/gi, replaced by "$1"
    | EmptyParagraph           // /<p>(&nbsp;|\s)*<\/p>/gi, replaced by ""

  /**
   * A successful match: it ends at `end` and is replaced by `s[keepStart..keepEnd]`,
   * the captured group `$1` for a span and the empty slice otherwise.
   */
  datatype Match = Match(end: nat, keepStart: nat, keepEnd: nat)

  /**
   * The lazy `(.*?)` followed by `target`: the first index at or after `j` where
   * `target` starts (ignoring ASCII case), provided no line terminator comes first.
   */
  function LazyScan(s: string, j: nat, target: string): (r: Option<nat>)
    requires j <= |s|
    ensures r.Some? ==> j <= r.value && MatchesCI(s, r.value, target) && LineFree(s, j, r.value)
    ensures r.Some? ==> forall m :: j <= m < r.value ==> !MatchesCI(s, m, target)
    ensures r.None? ==> forall m :: j <= m <= |s| && MatchesCI(s, m, target) ==> !LineFree(s, j, m)
    decreases |s| - j
  {
    if MatchesCI(s, j, target) then Some(j)
    else if j == |s| || IsLineTerminator(s[j]) then None
    else LazyScan(s, j + 1, target)
  }

  /** The greedy `[^>]*>`: the first `>` at or after `j`. */
  function FindGreater(s: string, j: nat): (r: Option<nat>)
    requires j <= |s|
    ensures r.Some? ==> j <= r.value < |s| && s[r.value] == '>' && Lacks(s, j, r.value, '>')
    ensures r.None? ==> Lacks(s, j, |s|, '>')
    decreases |s| - j
  {
    if j == |s| then None
    else if s[j] == '>' then Some(j)
    else FindGreater(s, j + 1)
  }

  /** `s[j..e]` is made only of `&nbsp;` (any case) and white space: the body of `(&nbsp;|\s)*`. */
  predicate IsFiller(s: string, j: nat, e: nat)
    requires j <= e <= |s|
    decreases e - j
  {
    || j == e
    || (j + 6 <= e && MatchesCI(s, j, "&nbsp;") && IsFiller(s, j + 6, e))
    || (IsWhiteSpace(s[j]) && IsFiller(s, j + 1, e))
  }

  /** The greedy `(&nbsp;|\s)*` starting at `j`: the end of the longest run of filler. */
  function FillerEnd(s: string, j: nat): (r: nat)
    requires j <= |s|
    ensures j <= r <= |s| && IsFiller(s, j, r)
    ensures !MatchesCI(s, r, "&nbsp;") && (r == |s| || !IsWhiteSpace(s[r]))
    decreases |s| - j
  {
    if MatchesCI(s, j, "&nbsp;") then FillerEnd(s, j + 6)
    else if j < |s| && IsWhiteSpace(s[j]) then FillerEnd(s, j + 1)
    else j
  }

  predicate IsQuote(c: char) {
    c == '"' || c == '\''
  }

  /** A match found at `i`: non-empty, within `s`, keeping a slice of the matched text. */
  predicate WithinMatch(s: string, i: nat, m: Match) {
    i <= m.keepStart <= m.keepEnd <= m.end <= |s| && i < m.end
  }

  /** Whether `pat` matches `s` at index `i`, and with what result. */
  function MatchAt(pat: Pattern, s: string, i: nat): (r: Option<Match>)
    requires i <= |s|
    ensures r.Some? ==> WithinMatch(s, i, r.value)
  {
    match pat
    case Attribute(name) => MatchAttribute(name, s, i)
    case Span => MatchSpan(s, i)
    case EmptyParagraph => MatchEmptyParagraph(s, i)
  }

  /** `/NAME=(["'])(.*?)\1/i` at `i`: the value ends at the first matching quote on the same line. */
  function MatchAttribute(name: string, s: string, i: nat): (r: Option<Match>)
    requires i <= |s|
    ensures r.Some? ==> WithinMatch(s, i, r.value) && r.value.keepStart == r.value.keepEnd
  {
    var q := i + |name| + 1;
    if MatchesCI(s, i, name + "=") && q < |s| && IsQuote(s[q]) then
      match LazyScan(s, q + 1, [s[q]])
      case Some(e) => Some(Match(e + 1, i, i))
      case None => None
    else None
  }

  /** `/<span[^>]*>(.*?)<\/span>/i` at `i`: the content up to the first `</span>` on the same line. */
  function MatchSpan(s: string, i: nat): (r: Option<Match>)
    requires i <= |s|
    ensures r.Some? ==> WithinMatch(s, i, r.value) && r.value.keepEnd + 7 == r.value.end
  {
    if MatchesCI(s, i, "<span") then
      match FindGreater(s, i + 5)
      case None => None
      case Some(g) =>
        match LazyScan(s, g + 1, "</span>")
        case None => None
        case Some(e) => Some(Match(e + 7, g + 1, e))
    else None
  }

  /** `/<p>(&nbsp;|\s)*<\/p>/i` at `i`. */
  function MatchEmptyParagraph(s: string, i: nat): (r: Option<Match>)
    requires i <= |s|
    ensures r.Some? ==> WithinMatch(s, i, r.value) && r.value.keepStart == r.value.keepEnd
  {
    if MatchesCI(s, i, "<p>") then
      var e := FillerEnd(s, i + 3);
      if MatchesCI(s, e, "</p>") then Some(Match(e + 4, i, i)) else None
    else None
  }

  // ---------------------------------------------------------------------------
  // The global replace
  // ---------------------------------------------------------------------------

  /** The outcome of trying the pattern at each index of `s`; the second ensures is its definition. */
  function Attempts(pat: Pattern, s: string): (ms: seq<Option<Match>>)
    ensures Advances(s, ms)
    ensures forall k :: 0 <= k < |s| ==> ms[k] == MatchAt(pat, s, k)
  {
    seq(|s|, k requires 0 <= k < |s| => MatchAt(pat, s, k))
  }

  /** One outcome per index of `s`; every match found at `k` is a `WithinMatch` at `k`. */
  predicate Advances(s: string, ms: seq<Option<Match>>) {
    |ms| == |s| && forall k :: 0 <= k < |s| && ms[k].Some? ==> WithinMatch(s, k, ms[k].value)
  }

  /**
   * The scan of `replace` with the `g` flag, from index `i`, given the outcome `ms[k]`
   * of trying the pattern at each index `k`.
   */
  function Scan(s: string, ms: seq<Option<Match>>, i: nat): (r: string)
    requires Advances(s, ms) && i <= |s|
    ensures |r| <= |s| - i
    decreases |s| - i
  {
    if i == |s| then ""
    else
      match ms[i]
      case Some(m) => s[m.keepStart..m.keepEnd] + Scan(s, ms, m.end)
      case None => [s[i]] + Scan(s, ms, i + 1)
  }

  /** `s.replace(pat, …)` with the `g` flag. */
  function ReplaceAll(pat: Pattern, s: string): (r: string)
    ensures |r| <= |s|
  {
    Scan(s, Attempts(pat, s), 0)
  }

  /** The five replacements of `limpiarHTML`, in their order, before the final `trim`. */
  function StripMarkup(html: string): (r: string)
    ensures |r| <= |html|
  {
    var s1 := ReplaceAll(Attribute("style"), html);
    var s2 := ReplaceAll(Attribute("class"), s1);
    var s3 := ReplaceAll(Attribute("lang"), s2);
    var s4 := ReplaceAll(Span, s3);
    ReplaceAll(EmptyParagraph, s4)
  }

  /** `limpiarHTML`. */
  function LimpiarHtml(html: string): (r: string)
    ensures r == [] || (!IsWhiteSpace(r[0]) && !IsWhiteSpace(r[|r| - 1]))
  {
    Trim(StripMarkup(html))
  }

  /**
   * When the leftmost match at or after `i` starts at `j`, the global replace
   * keeps `s[i..j]`, then emits that match's replacement and carries on after it.
   */
  lemma {:induction false} ScanLeftmost(s: string, ms: seq<Option<Match>>, i: nat, j: nat)
    requires Advances(s, ms) && i <= j < |s| && ms[j].Some?
    requires forall k :: i <= k < j ==> ms[k].None?
    ensures Scan(s, ms, i) == s[i..j] + (s[ms[j].value.keepStart..ms[j].value.keepEnd] + Scan(s, ms, ms[j].value.end))
    decreases j - i
  {
    var m := ms[j].value;
    var rest := s[m.keepStart..m.keepEnd] + Scan(s, ms, m.end);
    if i == j {
      assert s[i..j] + rest == rest;
    } else {
      ScanLeftmost(s, ms, i + 1, j);
      KeepStep(s, ms, i, j, rest);
    }
  }

  /** Where the pattern matches nowhere at or after `i`, the rest of the text is kept as it is. */
  lemma {:induction false} ScanNoMatch(s: string, ms: seq<Option<Match>>, i: nat)
    requires Advances(s, ms) && i <= |s|
    requires forall k :: i <= k < |s| ==> ms[k].None?
    ensures Scan(s, ms, i) == s[i..]
    decreases |s| - i
  {
    if i < |s| {
      ScanNoMatch(s, ms, i + 1);
      assert s[i + 1..|s|] + [] == s[i + 1..];
      KeepStep(s, ms, i, |s|, []);
      assert s[i..|s|] + [] == s[i..];
    }
  }

  /** A text where the pattern matches nowhere passes through the global replace unchanged. */
  lemma ReplaceWithoutMatch(pat: Pattern, s: string)
    requires forall k :: 0 <= k < |s| ==> MatchAt(pat, s, k).None?
    ensures ReplaceAll(pat, s) == s
  {
    ScanNoMatch(s, Attempts(pat, s), 0);
  }

  /** A character where nothing matches is kept in front of what the scan does next. */
  lemma KeepStep(s: string, ms: seq<Option<Match>>, i: nat, j: nat, rest: string)
    requires Advances(s, ms) && i < j <= |s| && ms[i].None?
    requires Scan(s, ms, i + 1) == s[i + 1..j] + rest
    ensures Scan(s, ms, i) == s[i..j] + rest
  {
    assert Scan(s, ms, i) == [s[i]] + Scan(s, ms, i + 1);
    ConsSlice(s, i, j, rest);
  }

  lemma ConsSlice(s: string, i: nat, j: nat, rest: string)
    requires i < j <= |s|
    ensures [s[i]] + (s[i + 1..j] + rest) == s[i..j] + rest
  {
    assert s[i..j] == [s[i]] + s[i + 1..j];
  }

  /** A global replace never introduces a character: its output is drawn from its input. */
  lemma {:induction false} ScanDrawsFromInput(s: string, ms: seq<Option<Match>>, i: nat)
    requires Advances(s, ms) && i <= |s|
    ensures multiset(Scan(s, ms, i)) <= multiset(s[i..])
    decreases |s| - i
  {
    if i < |s| {
      if ms[i].Some? {
        var m := ms[i].value;
        assert Scan(s, ms, i) == s[m.keepStart..m.keepEnd] + Scan(s, ms, m.end);
        ScanDrawsFromInput(s, ms, m.end);
        SliceDrawsFrom(s, i, m.keepStart, m.keepEnd, m.end);
        DrawnPieces(s, i, m.end, s[m.keepStart..m.keepEnd], Scan(s, ms, m.end));
      } else {
        assert Scan(s, ms, i) == [s[i]] + Scan(s, ms, i + 1);
        assert s[i..i + 1] == [s[i]];
        ScanDrawsFromInput(s, ms, i + 1);
        DrawnPieces(s, i, i + 1, [s[i]], Scan(s, ms, i + 1));
      }
    }
  }

  /** A substring is drawn from any larger slice around it. */
  lemma SliceDrawsFrom(s: string, i: nat, g: nat, e: nat, end: nat)
    requires i <= g <= e <= end <= |s|
    ensures multiset(s[g..e]) <= multiset(s[i..end])
  {
    assert s[i..end] == s[i..g] + s[g..e] + s[e..end];
  }

  /** Pieces drawn from two adjacent slices, put together, are drawn from the whole. */
  lemma DrawnPieces(s: string, i: nat, j: nat, a: string, b: string)
    requires i <= j <= |s|
    requires multiset(a) <= multiset(s[i..j]) && multiset(b) <= multiset(s[j..])
    ensures multiset(a + b) <= multiset(s[i..])
  {
    assert s[i..] == s[i..j] + s[j..];
  }

  /** Each of the five replacements only deletes or unwraps: its output is drawn from its input. */
  lemma DrawsFromInput(pat: Pattern, s: string)
    ensures multiset(ReplaceAll(pat, s)) <= multiset(s)
  {
    ScanDrawsFromInput(s, Attempts(pat, s), 0);
    assert s[0..] == s;
  }

  /** `limpiarHTML` only deletes: every character of its output comes from its input. */
  lemma LimpiarDrawsFromInput(html: string)
    ensures multiset(LimpiarHtml(html)) <= multiset(html)
  {
    var s1 := ReplaceAll(Attribute("style"), html);
    var s2 := ReplaceAll(Attribute("class"), s1);
    var s3 := ReplaceAll(Attribute("lang"), s2);
    var s4 := ReplaceAll(Span, s3);
    var s5 := ReplaceAll(EmptyParagraph, s4);
    assert LimpiarHtml(html) == Trim(s5);
    DrawsFromInput(Attribute("style"), html);
    DrawsFromInput(Attribute("class"), s1);
    DrawsFromInput(Attribute("lang"), s2);
    DrawsFromInput(Span, s3);
    DrawsFromInput(EmptyParagraph, s4);
    TrimDrawsFromInput(s5);
  }

  // ---------------------------------------------------------------------------
  // What each pattern matches, stated declaratively
  // ---------------------------------------------------------------------------

  /**
   * `NAME=` (any case), a quote, then a value up to the first copy of that quote,
   * with no line terminator in the value; the match ends after the closing quote.
   */
  predicate AttributeAt(name: string, s: string, i: nat, e: nat) {
    var q := i + |name| + 1;
    && MatchesCI(s, i, name + "=")
    && q + 2 <= e <= |s| && IsQuote(s[q]) && s[e - 1] == s[q]
    && LineFree(s, q + 1, e - 1)
    && forall m :: q + 1 <= m < e - 1 ==> s[m] != s[q]
  }

  /** The attribute rule matches at `i` exactly when `AttributeAt` holds, and is replaced by nothing. */
  lemma AttributeMatch(name: string, s: string, i: nat, e: nat)
    requires i <= |s|
    ensures AttributeAt(name, s, i, e) <==> MatchAttribute(name, s, i) == Some(Match(e, i, i))
  {
    if AttributeAt(name, s, i, e) {
      AttributeMatchComplete(name, s, i, e);
    } else if MatchAttribute(name, s, i) == Some(Match(e, i, i)) {
      AttributeMatchSound(name, s, i, e);
    }
  }

  lemma AttributeMatchComplete(name: string, s: string, i: nat, e: nat)
    requires i <= |s| && AttributeAt(name, s, i, e)
    ensures MatchAttribute(name, s, i) == Some(Match(e, i, i))
  {
    var q := i + |name| + 1;
    QuoteMatches(s, e - 1, q);
    forall m | q + 1 <= m < e - 1 ensures !MatchesCI(s, m, [s[q]]) {
      QuoteMatches(s, m, q);
    }
    LazyScanExact(s, q + 1, [s[q]], e - 1);
  }

  lemma AttributeMatchSound(name: string, s: string, i: nat, e: nat)
    requires i <= |s| && MatchAttribute(name, s, i) == Some(Match(e, i, i))
    ensures AttributeAt(name, s, i, e)
  {
    var q := i + |name| + 1;
    assert LazyScan(s, q + 1, [s[q]]) == Some(e - 1);
    QuoteMatches(s, e - 1, q);
    forall m | q + 1 <= m < e - 1 ensures s[m] != s[q] {
      QuoteMatches(s, m, q);
    }
  }

  /** The `i` flag leaves quote characters alone: a back-reference to a quote matches only that quote. */
  lemma QuoteMatches(s: string, m: nat, q: nat)
    requires m < |s| && q < |s| && IsQuote(s[q])
    ensures MatchesCI(s, m, [s[q]]) <==> s[m] == s[q]
  {
    assert MatchesCI(s, m, [s[q]]) <==> AsciiFold(s[m + 0]) == AsciiFold([s[q]][0]);
  }

  /** `LazyScan` finds the first occurrence of the target on the same line. */
  lemma {:induction false} LazyScanExact(s: string, j: nat, target: string, r: nat)
    requires j <= r <= |s| && MatchesCI(s, r, target) && LineFree(s, j, r)
    requires forall m :: j <= m < r ==> !MatchesCI(s, m, target)
    ensures LazyScan(s, j, target) == Some(r)
    decreases r - j
  {
    if j < r {
      LazyScanExact(s, j + 1, target, r);
    }
  }

  /** `FindGreater` finds the first `>`. */
  lemma {:induction false} FindGreaterExact(s: string, j: nat, g: nat)
    requires j <= g < |s| && s[g] == '>' && Lacks(s, j, g, '>')
    ensures FindGreater(s, j) == Some(g)
    decreases g - j
  {
    if j < g {
      FindGreaterExact(s, j + 1, g);
    }
  }

  /**
   * `<span` (any case), everything up to the first `>` (at `g`), then the content up to
   * the first `</span>` (any case), with no line terminator in the content; the
   * match ends after `</span>`.
   */
  predicate SpanAt(s: string, i: nat, g: nat, e: nat) {
    && MatchesCI(s, i, "<span")
    && i + 5 <= g && g + 8 <= e <= |s| && s[g] == '>'
    && Lacks(s, i + 5, g, '>')
    && MatchesCI(s, e - 7, "</span>") && LineFree(s, g + 1, e - 7)
    && forall m :: g + 1 <= m < e - 7 ==> !MatchesCI(s, m, "</span>")
  }

  /** The span rule matches at `i` exactly when `SpanAt` holds, and is replaced by the span's content. */
  lemma SpanMatch(s: string, i: nat, g: nat, e: nat)
    requires i <= |s|
    ensures SpanAt(s, i, g, e) <==> g + 8 <= e && MatchSpan(s, i) == Some(Match(e, g + 1, e - 7))
  {
    if SpanAt(s, i, g, e) {
      SpanMatchComplete(s, i, g, e);
    } else if g + 8 <= e && MatchSpan(s, i) == Some(Match(e, g + 1, e - 7)) {
      SpanMatchSound(s, i, g, e);
    }
  }

  lemma SpanMatchComplete(s: string, i: nat, g: nat, e: nat)
    requires i <= |s| && SpanAt(s, i, g, e)
    ensures MatchSpan(s, i) == Some(Match(e, g + 1, e - 7))
  {
    assert MatchesCI(s, i, "<span");
    FindGreaterExact(s, i + 5, g);
    LazyScanExact(s, g + 1, "</span>", e - 7);
  }

  lemma SpanMatchSound(s: string, i: nat, g: nat, e: nat)
    requires i <= |s| && g + 8 <= e && MatchSpan(s, i) == Some(Match(e, g + 1, e - 7))
    ensures SpanAt(s, i, g, e)
  {
    assert FindGreater(s, i + 5) == Some(g);
    assert LazyScan(s, g + 1, "</span>") == Some(e - 7);
  }

  /** `<p>` (any case), a body of white space and `&nbsp;` only, then `</p>` (any case). */
  predicate EmptyParagraphAt(s: string, i: nat, e: nat) {
    && MatchesCI(s, i, "<p>")
    && i + 7 <= e <= |s|
    && IsFiller(s, i + 3, e - 4)
    && MatchesCI(s, e - 4, "</p>")
  }

  /** The empty-paragraph rule matches at `i` exactly when `EmptyParagraphAt` holds, and deletes it. */
  lemma EmptyParagraphMatch(s: string, i: nat, e: nat)
    requires i <= |s|
    ensures EmptyParagraphAt(s, i, e) <==> MatchEmptyParagraph(s, i) == Some(Match(e, i, i))
  {
    if EmptyParagraphAt(s, i, e) {
      assert AsciiFold(s[e - 4 + 0]) == AsciiFold("</p>"[0]);
      AngleNotFiller(s, e - 4);
      FillerEndExact(s, i + 3, e - 4);
    }
  }

  /** A run of filler that cannot be extended is exactly what the greedy `(&nbsp;|\s)*` consumes. */
  lemma {:induction false} FillerEndExact(s: string, j: nat, e: nat)
    requires j <= e <= |s| && IsFiller(s, j, e)
    requires !MatchesCI(s, e, "&nbsp;") && (e == |s| || !IsWhiteSpace(s[e]))
    ensures FillerEnd(s, j) == e
    decreases e - j
  {
    if j < e {
      if MatchesCI(s, j, "&nbsp;") {
        assert AsciiFold(s[j + 0]) == AsciiFold("&nbsp;"[0]);
        FillerEndExact(s, j + 6, e);
      } else {
        FillerEndExact(s, j + 1, e);
      }
    }
  }

  /** A position holding `<` starts neither `&nbsp;` nor white space. */
  lemma AngleNotFiller(s: string, k: nat)
    requires k < |s| && AsciiFold(s[k]) == '<'
    ensures !MatchesCI(s, k, "&nbsp;") && !IsWhiteSpace(s[k])
  {
    assert "&nbsp;"[0] == '&';
    assert AsciiFold('&') == '&';
  }

  /** The attribute rules need an `=` where they match. */
  lemma AttributeNeedsEquals(name: string, s: string, i: nat)
    requires i <= |s| && MatchAttribute(name, s, i).Some?
    ensures i + |name| < |s| && s[i + |name|] == '='
  {
    FoldsAt(s, i, name + "=", |name|);
  }

  /** The span rule needs an `s` or `S` right after the `<` where it matches. */
  lemma SpanNeedsS(s: string, i: nat)
    requires i <= |s| && MatchSpan(s, i).Some?
    ensures i + 1 < |s| && AsciiFold(s[i]) == '<' && AsciiFold(s[i + 1]) == 's'
  {
    FoldsAt(s, i, "<span", 0);
    FoldsAt(s, i, "<span", 1);
  }

  /** A text without `=` passes an attribute rule unchanged. */
  lemma NoAttributes(name: string, s: string)
    requires forall k :: 0 <= k < |s| ==> s[k] != '='
    ensures ReplaceAll(Attribute(name), s) == s
  {
    forall k | 0 <= k < |s| ensures MatchAt(Attribute(name), s, k).None? {
      if MatchAttribute(name, s, k).Some? {
        AttributeNeedsEquals(name, s, k);
      }
    }
    ReplaceWithoutMatch(Attribute(name), s);
  }

  /** A text with no `s` or `S` passes the span rule unchanged. */
  lemma NoSpans(s: string)
    requires forall k :: 0 <= k < |s| ==> AsciiFold(s[k]) != 's'
    ensures ReplaceAll(Span, s) == s
  {
    forall k | 0 <= k < |s| ensures MatchAt(Span, s, k).None? {
      if MatchSpan(s, k).Some? {
        SpanNeedsS(s, k);
      }
    }
    ReplaceWithoutMatch(Span, s);
  }

  /**
   * A `<p>` whose content begins with text (not white space, `&` or a tag) is
   * not an empty paragraph, so the last rule leaves it in place.
   */
  lemma TextParagraphKept(s: string, i: nat)
    requires MatchesCI(s, i, "<p>") && i + 3 < |s|
    requires !IsWhiteSpace(s[i + 3]) && s[i + 3] != '&' && s[i + 3] != '<'
    ensures MatchEmptyParagraph(s, i).None?
  {
    var c := s[i + 3];
    assert AsciiFold(c) != '&' && AsciiFold(c) != '<';
    if MatchesCI(s, i + 3, "&nbsp;") {
      FoldsAt(s, i + 3, "&nbsp;", 0);
    }
    assert FillerEnd(s, i + 3) == i + 3;
    if MatchesCI(s, i + 3, "</p>") {
      FoldsAt(s, i + 3, "</p>", 0);
    }
  }

  /** `<p>` does not match at `i` when one of its three characters differs there. */
  lemma NotOpenParagraph(s: string, i: nat, k: nat)
    requires i <= k < i + 3 && k < |s| && AsciiFold(s[k]) != AsciiFold("<p>"[k - i])
    ensures MatchEmptyParagraph(s, i).None?
  {
    assert !MatchesCI(s, i, "<p>") by {
      assert s[k] == s[i + (k - i)];
    }
  }

  /**
   * An empty paragraph that carries an attribute is never removed: once the
   * attribute rule has left `<p >&nbsp;</p>`, the empty-paragraph rule, which
   * needs exactly `<p>`, matches nowhere in it.
   */
  lemma StyledEmptyParagraphStays()
    ensures ReplaceAll(EmptyParagraph, "<p >&nbsp;</p>") == "<p >&nbsp;</p>"
  {
    var s := "<p >&nbsp;</p>";
    forall i | 0 <= i < |s| ensures MatchAt(EmptyParagraph, s, i).None? {
      if i == 0 {
        NotOpenParagraph(s, i, 2);
      } else if i == 10 {
        NotOpenParagraph(s, i, 11);
      } else if i + 3 <= |s| {
        NotOpenParagraph(s, i, i);
      }
    }
    ReplaceWithoutMatch(EmptyParagraph, s);
  }

  /** The attribute rule needs `=` right after the name, so it fails where that is missing. */
  lemma NoEqualsNoAttribute(name: string, s: string, k: nat)
    requires k <= |s| && (k + |name| < |s| ==> s[k + |name|] != '=')
    ensures MatchAttribute(name, s, k).None?
  {
    if k + |name| < |s| {
      assert !MatchesCI(s, k, name + "=") by {
        assert (name + "=")[|name|] == '=';
      }
    }
  }

  /**
   * An attribute matched at `i`, in a text with no other `=`, is cut out whole,
   * and nothing else changes.
   */
  lemma AttributeStripped(name: string, s: string, i: nat, e: nat)
    requires i <= |s| && AttributeAt(name, s, i, e)
    requires forall k :: 0 <= k < |name| ==> name[k] != '='
    requires forall k :: 0 <= k < i ==> s[k] != '='
    requires forall k :: e <= k < |s| ==> s[k] != '='
    ensures ReplaceAll(Attribute(name), s) == s[..i] + s[e..]
  {
    AttributeMatchComplete(name, s, i, e);
    var ms := Attempts(Attribute(name), s);
    forall k | 0 <= k < i ensures ms[k].None? {
      if k + |name| < i + |name| {
        if k + |name| >= i {
          FoldsAt(s, i, name + "=", k + |name| - i);
          assert (name + "=")[k + |name| - i] == name[k + |name| - i];
        }
      }
      NoEqualsNoAttribute(name, s, k);
    }
    forall k | e <= k < |s| ensures ms[k].None? {
      NoEqualsNoAttribute(name, s, k);
    }
    ScanLeftmost(s, ms, 0, i);
    ScanNoMatch(s, ms, e);
  }

  /** A value that a quoted attribute can hold: on one line, without a double quote. */
  predicate QuotableValue(v: string) {
    forall m :: 0 <= m < |v| ==> v[m] != '"' && !IsLineTerminator(v[m])
  }

  /** The `style` attribute of `<p style="v">&nbsp;</p>` runs from index 3 to just past its closing quote. */
  lemma StyledParagraphAttributeAt(v: string)
    requires QuotableValue(v)
    ensures AttributeAt("style", "<p style=\"" + v + "\">&nbsp;</p>", 3, 11 + |v|)
  {
    var s := "<p style=\"" + v + "\">&nbsp;</p>";
    assert MatchesCI(s, 3, "style=") by {
      forall k | 0 <= k < 6 ensures s[3 + k] == "style="[k] {
      }
    }
    forall m | 10 <= m < 10 + |v| ensures s[m] == v[m - 10] {
    }
    LineFreeAll(s, 10, 10 + |v|);
  }

  /** The only `=` in `<p style="v">&nbsp;</p>` outside the attribute's value is the one after `style`. */
  lemma StyledParagraphOneEquals(v: string)
    ensures forall k :: 0 <= k < |"style"| ==> "style"[k] != '='
    ensures forall k :: 0 <= k < 3 ==> ("<p style=\"" + v + "\">&nbsp;</p>")[k] != '='
    ensures forall k :: 11 + |v| <= k < |"<p style=\"" + v + "\">&nbsp;</p>"| ==> ("<p style=\"" + v + "\">&nbsp;</p>")[k] != '='
  {
    var s := "<p style=\"" + v + "\">&nbsp;</p>";
    forall k | 11 + |v| <= k < |s| ensures s[k] != '=' {
      assert s[k] == "\">&nbsp;</p>"[k - 10 - |v|];
    }
  }

  /** What lies before and after the `style` attribute of `<p style="v">&nbsp;</p>`. */
  lemma StyledParagraphOutside(v: string)
    ensures ("<p style=\"" + v + "\">&nbsp;</p>")[..3] == "<p "
    ensures ("<p style=\"" + v + "\">&nbsp;</p>")[11 + |v|..] == ">&nbsp;</p>"
  {
    var s := "<p style=\"" + v + "\">&nbsp;</p>";
    assert s[11 + |v|..] == "\">&nbsp;</p>"[1..];
  }

  /** The attribute rule turns `<p style="v">&nbsp;</p>` into `<p >&nbsp;</p>`. */
  lemma StyledParagraphAttributeStep(v: string)
    requires QuotableValue(v)
    ensures ReplaceAll(Attribute("style"), "<p style=\"" + v + "\">&nbsp;</p>") == "<p >&nbsp;</p>"
  {
    StyledParagraphAttributeAt(v);
    StyledParagraphOneEquals(v);
    AttributeStripped("style", "<p style=\"" + v + "\">&nbsp;</p>", 3, 11 + |v|);
    StyledParagraphOutside(v);
    assert "<p " + ">&nbsp;</p>" == "<p >&nbsp;</p>";
  }

  /** `<span` does not match at `i` when the character at `k` folds to something else. */
  lemma NotSpanAt(s: string, i: nat, k: nat)
    requires i <= k < i + 5 && k < |s| && AsciiFold(s[k]) != AsciiFold("<span"[k - i])
    ensures MatchSpan(s, i).None?
  {
    assert !MatchesCI(s, i, "<span") by { assert s[k] == s[i + (k - i)]; }
  }

  /** The span rule matches nowhere in `<p >&nbsp;</p>`. */
  lemma AttributelessParagraphHasNoSpan()
    ensures ReplaceAll(Span, "<p >&nbsp;</p>") == "<p >&nbsp;</p>"
  {
    var s := "<p >&nbsp;</p>";
    forall i | 0 <= i < |s| ensures MatchAt(Span, s, i).None? {
      if i == 0 {
        NotSpanAt(s, i, 1);
      } else if i == 10 {
        NotSpanAt(s, i, 11);
      } else if i + 5 <= |s| {
        NotSpanAt(s, i, i);
      }
    }
    ReplaceWithoutMatch(Span, s);
  }

  /** The five replacements take `<p style="v">&nbsp;</p>` to `<p >&nbsp;</p>`. */
  lemma StyledParagraphStripped(v: string)
    requires QuotableValue(v)
    ensures StripMarkup("<p style=\"" + v + "\">&nbsp;</p>") == "<p >&nbsp;</p>"
  {
    var p := "<p >&nbsp;</p>";
    StyledParagraphAttributeStep(v);
    assert forall k :: 0 <= k < |p| ==> p[k] != '=';
    NoAttributes("class", p);
    NoAttributes("lang", p);
    AttributelessParagraphHasNoSpan();
    StyledEmptyParagraphStays();
  }

  /**
   * `limpiarHTML` keeps an empty paragraph that carries a `style` attribute: the
   * attribute goes, and the paragraph that is left no longer has the exact `<p>`
   * the empty-paragraph rule needs.
   */
  lemma StyledEmptyParagraphKept(v: string)
    requires QuotableValue(v)
    ensures LimpiarHtml("<p style=\"" + v + "\">&nbsp;</p>") == "<p >&nbsp;</p>"
  {
    var p := "<p >&nbsp;</p>";
    assert !IsWhiteSpace(p[0]) && !IsWhiteSpace(p[|p| - 1]);
    StyledParagraphStripped(v);
    LimpiarWithoutSpaceAtEnds("<p style=\"" + v + "\">&nbsp;</p>", p);
  }

  /** When the replacements leave no white space at either end, the final `trim` changes nothing. */
  lemma LimpiarWithoutSpaceAtEnds(html: string, p: string)
    requires StripMarkup(html) == p
    requires p == [] || (!IsWhiteSpace(p[0]) && !IsWhiteSpace(p[|p| - 1]))
    ensures LimpiarHtml(html) == p
  {
    assert "" + p + "" == p;
    TrimExact("", p, "");
  }

  // ---------------------------------------------------------------------------
  // Spans inside spans
  // ---------------------------------------------------------------------------

  /**
   * A text starting with a span, whose content `w` is on one line and holds no
   * `</span>`, and followed by text `rest` where the rule does not match: the
   * span rule keeps the content and the rest.
   */
  lemma LeadingSpan(s: string, w: string, rest: string)
    requires s == "<span>" + w + "</span>" + rest
    requires forall m :: 0 <= m < |w| ==> !IsLineTerminator(w[m])
    requires forall m :: 6 <= m < 6 + |w| ==> !MatchesCI(s, m, "</span>")
    requires forall k :: 13 + |w| <= k < |s| ==> MatchSpan(s, k).None?
    ensures ReplaceAll(Span, s) == w + rest
  {
    var e := 13 + |w|;
    LeadingSpanMatch(s, w, rest);
    var ms := Attempts(Span, s);
    ScanLeftmost(s, ms, 0, 0);
    ScanNoMatch(s, ms, e);
    LeadingSpanParts(s, w, rest);
  }

  /** Where the content and the rest sit in a text that starts with a span. */
  lemma LeadingSpanParts(s: string, w: string, rest: string)
    requires s == "<span>" + w + "</span>" + rest
    ensures s[6..6 + |w|] == w && s[13 + |w|..] == rest
  {
  }

  /** The span rule matches the leading span exactly, keeping its content. */
  lemma LeadingSpanMatch(s: string, w: string, rest: string)
    requires s == "<span>" + w + "</span>" + rest
    requires forall m :: 0 <= m < |w| ==> !IsLineTerminator(w[m])
    requires forall m :: 6 <= m < 6 + |w| ==> !MatchesCI(s, m, "</span>")
    ensures MatchSpan(s, 0) == Some(Match(13 + |w|, 6, 6 + |w|))
  {
    var e := 13 + |w|;
    assert s[..6] == "<span>";
    forall k | 0 <= k < 5 ensures AsciiFold(s[k]) == AsciiFold("<span"[k]) {
      assert s[k] == s[..6][k];
    }
    assert s[e - 7..e] == "</span>";
    forall k | 0 <= k < 7 ensures AsciiFold(s[e - 7 + k]) == AsciiFold("</span>"[k]) {
      assert s[e - 7 + k] == s[e - 7..e][k];
    }
    forall m | 6 <= m < 6 + |w| ensures !IsLineTerminator(s[m]) {
      assert s[m] == w[m - 6];
    }
    LineFreeAll(s, 6, 6 + |w|);
    SpanMatchComplete(s, 0, 5, e);
  }

  lemma NoAngle(s: string, m: nat, pat: string)
    requires m < |s| && s[m] != '<' && pat != [] && pat[0] == '<'
    ensures !MatchesCI(s, m, pat)
  {
    if MatchesCI(s, m, pat) {
      FoldsAt(s, m, pat, 0);
    }
  }

  /** The span rule unwraps a span around text `c` that is on one line and holds no `<`. */
  lemma SpanUnwraps(c: string)
    requires forall m :: 0 <= m < |c| ==> c[m] != '<' && !IsLineTerminator(c[m])
    ensures ReplaceAll(Span, "<span>" + c + "</span>") == c
  {
    var s := "<span>" + c + "</span>";
    assert s == "<span>" + c + "</span>" + "";
    forall m | 6 <= m < 6 + |c| ensures !MatchesCI(s, m, "</span>") {
      assert s[m] == c[m - 6];
      NoAngle(s, m, "</span>");
    }
    LeadingSpan(s, c, "");
    assert c + "" == c;
  }

  /**
   * The span rule is not idempotent: of two nested spans one pass removes only
   * the outer tags with the inner closing tag, and a second pass changes the
   * text again.
   */
  lemma NestedSpans(c: string)
    requires forall m :: 0 <= m < |c| ==> c[m] != '<' && !IsLineTerminator(c[m])
    ensures ReplaceAll(Span, "<span><span>" + c + "</span></span>") == "<span>" + c + "</span>"
    ensures ReplaceAll(Span, ReplaceAll(Span, "<span><span>" + c + "</span></span>")) == c
  {
    var w := "<span>" + c;
    var s := "<span>" + w + "</span>" + "</span>";
    assert "<span><span>" + c + "</span></span>" == s;
    forall m | 0 <= m < |w| ensures !IsLineTerminator(w[m]) {
      if m >= 6 {
        assert w[m] == c[m - 6];
      }
    }
    forall m | 6 <= m < 6 + |w| ensures !MatchesCI(s, m, "</span>") {
      if m == 6 {
        assert s[7] == 's';
        if MatchesCI(s, 6, "</span>") {
          FoldsAt(s, 6, "</span>", 1);
        }
      } else if m < 12 {
        assert s[m] == w[m - 6] && w[m - 6] != '<';
        NoAngle(s, m, "</span>");
      } else {
        assert s[m] == c[m - 12];
        NoAngle(s, m, "</span>");
      }
    }
    var e := 13 + |w|;
    assert s[e..] == "</span>";
    forall k | e <= k < |s| ensures MatchSpan(s, k).None? {
      assert s[k] == s[e..][k - e];
    }
    LeadingSpan(s, w, "</span>");
    assert w + "</span>" == "<span>" + c + "</span>";
    SpanUnwraps(c);
  }
}
