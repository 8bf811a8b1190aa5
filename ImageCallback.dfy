/**
 * The two string rules of the image callback of `convertDocx` (server.cjs):
 * the file extension of the data URI, taken from the image's content type,
 * and the clean-up of the image's alternative text.
 */
module ImageCallback {
  import opened JsString

  /** The extension used when the content type gives none. */
  const DefaultExt: string := "png"

  /** The automatic caption the word processor appends to generated descriptions. */
  const Disclaimer: string := "El contenido generado por IA"

  /** `contentType.split("/")[1] || "png"`: the second piece, unless it is missing or empty. */
  function Ext(contentType: string): (r: string)
    ensures r != [] && '/' !in r
  {
    var parts := Split(contentType, '/');
    if |parts| > 1 && parts[1] != "" then parts[1] else DefaultExt
  }

  /** The index of the first `c` at or after `i`, or `|s|` when there is none. */
  function Find(s: string, i: nat, c: char): (k: nat)
    requires i <= |s|
    ensures i <= k <= |s| && (k < |s| ==> s[k] == c)
    ensures forall m :: i <= m < k ==> s[m] != c
    decreases |s| - i
  {
    if i == |s| || s[i] == c then i else Find(s, i + 1, c)
  }

  /** The first piece of a split ends at the first separator. */
  lemma SplitHead(s: string, sep: char)
    ensures Split(s, sep)[0] == s[..Find(s, 0, sep)]
  {
    var k := Find(s, 0, sep);
    if k == |s| {
      assert sep !in s;
      SplitFree(s, sep);
      assert s[..k] == s;
    } else {
      assert sep !in s[..k];
      assert s == s[..k] + [sep] + s[k + 1..];
      SplitPrefix(s[..k], s[k + 1..], sep);
    }
  }

  /**
   * The extension by positions: the text between the first `/` and the next
   * `/` (or the end), and `png` when there is no `/` or that text is empty.
   */
  function SubtypeOf(s: string): string {
    var i := Find(s, 0, '/');
    if i == |s| then DefaultExt
    else
      var j := Find(s, i + 1, '/');
      if j == i + 1 then DefaultExt else s[i + 1..j]
  }

  lemma ExtSegment(contentType: string)
    ensures Ext(contentType) == SubtypeOf(contentType)
  {
    var s := contentType;
    var i := Find(s, 0, '/');
    if i == |s| {
      assert '/' !in s;
      SplitFree(s, '/');
    } else {
      var tail := s[i + 1..];
      assert '/' !in s[..i];
      assert s == s[..i] + ['/'] + tail;
      SplitPrefix(s[..i], tail, '/');
      SplitHead(tail, '/');
      FindShift(s, i + 1, '/');
    }
  }

  /** Searching a suffix is searching the whole from where the suffix starts. */
  lemma FindShift(s: string, i: nat, c: char)
    requires i <= |s|
    ensures Find(s[i..], 0, c) == Find(s, i, c) - i
    ensures s[i..][..Find(s[i..], 0, c)] == s[i..Find(s, i, c)]
  {
    var j := Find(s, i, c);
    var u := s[i..];
    forall m | 0 <= m < j - i ensures u[m] != c {
      assert u[m] == s[i + m];
    }
    FindFirst(u, 0, c, j - i);
  }

  lemma {:induction false} FindFirst(s: string, i: nat, c: char, k: nat)
    requires i <= k <= |s| && (k < |s| ==> s[k] == c)
    requires forall m :: i <= m < k ==> s[m] != c
    ensures Find(s, i, c) == k
    decreases |s| - i
  {
    if i < k {
      FindFirst(s, i + 1, c, k);
    }
  }

  /** "image/jpeg" gives "jpeg": a `type/subtype` content type gives its subtype. */
  lemma ExtOfSubtype(kind: string, subtype: string)
    requires '/' !in kind && '/' !in subtype && subtype != ""
    ensures Ext(kind + "/" + subtype) == subtype
  {
    var s := kind + "/" + subtype;
    assert s == kind + ['/'] + subtype;
    SplitPrefix(kind, subtype, '/');
    SplitFree(subtype, '/');
  }

  /** A content type without a `/`, or with nothing after it, gives "png". */
  lemma ExtFallback(kind: string)
    requires '/' !in kind
    ensures Ext(kind) == DefaultExt && Ext(kind + "/") == DefaultExt
  {
    SplitFree(kind, '/');
    assert kind + "/" == kind + ['/'] + "";
    SplitPrefix(kind, "", '/');
  }

  // ---------------------------------------------------------------------------
  // The alternative text

  /**
   * `/El contenido generado por IA.*$/i` matches at `k`: the caption, in any
   * ASCII case, followed by no line terminator up to the end of the text
   * (`.` stops at line terminators and `$` is the end of the input).
   */
  predicate DisclaimerAt(s: string, k: nat) {
    MatchesCI(s, k, Disclaimer) && LineFree(s, k + |Disclaimer|, |s|)
  }

  /** The leftmost index at or after `i` where the pattern matches. */
  function FindDisclaimer(s: string, i: nat): (r: Option<nat>)
    requires i <= |s|
    ensures r.Some? ==> i <= r.value <= |s| && DisclaimerAt(s, r.value)
    ensures forall k :: i <= k <= |s| && (r.None? || k < r.value) ==> !DisclaimerAt(s, k)
    decreases |s| - i
  {
    if DisclaimerAt(s, i) then Some(i)
    else if i == |s| then None
    else FindDisclaimer(s, i + 1)
  }

  /** The replace without `g` removes the leftmost match only; nothing when there is none. */
  function StripDisclaimer(s: string): (r: string)
    ensures r <= s
    ensures r == s <==> forall k :: 0 <= k <= |s| ==> !DisclaimerAt(s, k)
    ensures r != s ==> DisclaimerAt(s, |r|) && forall m :: 0 <= m < |r| ==> !DisclaimerAt(s, m)
  {
    match FindDisclaimer(s, 0)
    case Some(k) => s[..k]
    case None => s
  }

  /** `(image.altText || "").replace(/El contenido generado por IA.*$/i, "").trim()`. */
  function CleanAlt(altText: Option<string>): (r: string)
    ensures altText.None? ==> r == []
    ensures altText.Some? ==> |r| <= |altText.value|
    ensures r == [] || (!IsWhiteSpace(r[0]) && !IsWhiteSpace(r[|r| - 1]))
  {
    var a := if altText.Some? then altText.value else "";
    Trim(StripDisclaimer(a))
  }

  /** Without the caption the text is only trimmed. */
  lemma CleanAltNoCaption(s: string)
    requires forall k :: 0 <= k <= |s| ==> !DisclaimerAt(s, k)
    ensures CleanAlt(Some(s)) == Trim(s)
  {
  }

  /**
   * With the caption at `k`, in any case and with no line break after it, and
   * at no earlier place, the caption and all that follows are cut off and
   * what is left is trimmed.
   */
  lemma CleanAltCuts(s: string, k: nat)
    requires k <= |s| && DisclaimerAt(s, k)
    requires forall m :: 0 <= m < k ==> !DisclaimerAt(s, m)
    ensures CleanAlt(Some(s)) == Trim(s[..k])
  {
    var f := FindDisclaimer(s, 0);
    assert f.Some?;
    assert f.value == k;
  }

  lemma {:induction false} LineFreeSplit(s: string, i: nat, j: nat, l: nat)
    requires i <= j <= l <= |s|
    ensures LineFree(s, i, l) <==> LineFree(s, i, j) && LineFree(s, j, l)
    decreases j - i
  {
    if i < j {
      LineFreeSplit(s, i + 1, j, l);
    }
  }

  lemma {:induction false} LineFreePrefix(s: string, i: nat, j: nat, l: nat)
    requires i <= j <= l <= |s|
    ensures LineFree(s[..l], i, j) == LineFree(s, i, j)
    decreases j - i
  {
    if i < j {
      LineFreePrefix(s, i + 1, j, l);
    }
  }

  /** The caption holds no line terminator, so a match of it holds none either. */
  lemma CaptionLineFree(s: string, k: nat)
    requires MatchesCI(s, k, Disclaimer)
    ensures LineFree(s, k, k + |Disclaimer|)
  {
    forall m | k <= m < k + |Disclaimer| ensures !IsLineTerminator(s[m]) {
      assert AsciiFold(s[k + (m - k)]) == AsciiFold(Disclaimer[m - k]);
      assert !IsLineTerminator(Disclaimer[m - k]);
    }
    LineFreeAll(s, k, k + |Disclaimer|);
  }

  /**
   * Cutting at the leftmost match leaves no match behind: a match in the
   * remaining text would also have been one, further left, in the whole text.
   */
  lemma StripLeavesNoCaption(s: string)
    ensures forall m :: 0 <= m <= |StripDisclaimer(s)| ==> !DisclaimerAt(StripDisclaimer(s), m)
  {
    var f := FindDisclaimer(s, 0);
    if f.Some? {
      var k := f.value;
      var t := s[..k];
      forall m | 0 <= m <= |t| ensures !DisclaimerAt(t, m) {
        if DisclaimerAt(t, m) {
          var e := m + |Disclaimer|;
          assert MatchesCI(s, m, Disclaimer) by {
            forall x | 0 <= x < |Disclaimer| ensures AsciiFold(s[m + x]) == AsciiFold(Disclaimer[x]) {
              assert t[m + x] == s[m + x];
            }
          }
          LineFreePrefix(s, e, k, k);
          CaptionLineFree(s, k);
          LineFreeSplit(s, k, k + |Disclaimer|, |s|);
          LineFreeSplit(s, e, k, |s|);
          assert DisclaimerAt(s, m);
        }
      }
    }
  }

  /** The cleaned text is a trimmed beginning of the original. */
  lemma CleanAltPrefix(s: string)
    ensures exists k :: 0 <= k <= |s| && CleanAlt(Some(s)) == Trim(s[..k])
  {
    var f := FindDisclaimer(s, 0);
    if f.Some? {
      assert CleanAlt(Some(s)) == Trim(s[..f.value]);
    } else {
      assert s[..|s|] == s;
    }
  }

  /**
   * A text ending in a line break never loses a caption: `.` cannot cross the
   * break, and the caption's last letter is not a line break.
   */
  lemma CaptionBeforeBreakKept(t: string)
    ensures CleanAlt(Some(t + "\n")) == Trim(t + "\n")
  {
    var s := t + "\n";
    var n := |s|;
    assert s[n - 1] == '\n';
    CaptionEnds();
    forall k | 0 <= k <= n ensures !DisclaimerAt(s, k) {
      var e := k + |Disclaimer|;
      if e < n {
        LineFreeSplit(s, e, n - 1, n);
      } else if e == n {
        MismatchAtEnd(s, k, Disclaimer);
      }
    }
    CleanAltNoCaption(s);
  }

  /** A pattern whose last character differs from the text's cannot end the text. */
  lemma MismatchAtEnd(s: string, k: nat, pat: string)
    requires |pat| > 0 && k + |pat| == |s|
    requires AsciiFold(s[|s| - 1]) != AsciiFold(pat[|pat| - 1])
    ensures !MatchesCI(s, k, pat)
  {
    assert s[|s| - 1] == s[k + (|pat| - 1)];
  }

  lemma CaptionEnds()
    ensures |Disclaimer| >= 1 && AsciiFold(Disclaimer[0]) == 'e'
    ensures !IsWhiteSpace(Disclaimer[|Disclaimer| - 1]) && AsciiFold(Disclaimer[|Disclaimer| - 1]) == 'a'
  {
  }

  /** A pattern matches, ignoring case, where it is appended. */
  lemma MatchesAppended(p: string, pat: string)
    ensures MatchesCI(p + pat, |p|, pat)
  {
    forall k | 0 <= k < |pat| ensures AsciiFold((p + pat)[|p| + k]) == AsciiFold(pat[k]) {
      assert (p + pat)[|p| + k] == pat[k];
    }
  }

  /** A text with no white space at either end, then a line break, comes back whole. */
  lemma BreakAfterTrimmedKept(u: string)
    requires u != [] && !IsWhiteSpace(u[0]) && !IsWhiteSpace(u[|u| - 1])
    ensures CleanAlt(Some(u + "\n")) == u
  {
    CaptionBeforeBreakKept(u);
    TrimExact("", u, "\n");
    assert "" + u + "\n" == u + "\n";
  }

  /** A caption after a letter and a space, then a line break, survives. */
  lemma CaptionThenBreakKept(x: char)
    requires !IsWhiteSpace(x)
    ensures CleanAlt(Some([x, ' '] + Disclaimer + "\n")) == [x, ' '] + Disclaimer
  {
    var u := [x, ' '] + Disclaimer;
    CaptionEnds();
    assert u[0] == x && u[|u| - 1] == Disclaimer[|Disclaimer| - 1];
    BreakAfterTrimmedKept(u);
  }

  /** A letter and a space, then a pattern that starts with a different letter. */
  lemma OnlyMatchAfterWord(x: char, pat: string)
    requires pat != [] && AsciiFold(x) != AsciiFold(pat[0]) && AsciiFold(' ') != AsciiFold(pat[0])
    ensures MatchesCI([x, ' '] + pat, 2, pat)
    ensures !MatchesCI([x, ' '] + pat, 0, pat) && !MatchesCI([x, ' '] + pat, 1, pat)
  {
    var u := [x, ' '] + pat;
    MatchesAppended([x, ' '], pat);
    assert !MatchesCI(u, 0, pat) by {
      assert AsciiFold(u[0]) != AsciiFold(pat[0]);
    }
    assert !MatchesCI(u, 1, pat) by {
      assert AsciiFold(u[1]) != AsciiFold(pat[0]);
    }
  }

  /** A caption found first at index 2, after a letter and a space, leaves the letter. */
  lemma CutAtTwo(u: string)
    requires |u| >= 2 && !IsWhiteSpace(u[0]) && u[1] == ' '
    requires DisclaimerAt(u, 2) && !DisclaimerAt(u, 0) && !DisclaimerAt(u, 1)
    ensures CleanAlt(Some(u)) == [u[0]]
  {
    CleanAltCuts(u, 2);
    assert u[..2] == [u[0], ' '];
    TrimLetterSpace(u[0]);
  }

  lemma TrimLetterSpace(x: char)
    requires !IsWhiteSpace(x)
    ensures Trim([x, ' ']) == [x]
  {
    assert [x, ' '] == "" + [x] + [' '];
    TrimExact("", [x], [' ']);
  }

  /** A caption after a letter and a space, ending the text, is cut with the space. */
  lemma CaptionAtEndCut(x: char)
    requires !IsWhiteSpace(x) && AsciiFold(x) != 'e'
    ensures CleanAlt(Some([x, ' '] + Disclaimer)) == [x]
  {
    var u := [x, ' '] + Disclaimer;
    CaptionEnds();
    OnlyMatchAfterWord(x, Disclaimer);
    assert LineFree(u, |u|, |u|);
    CutAtTwo(u);
  }

  /**
   * The clean-up is not idempotent: a caption followed by a trailing line break
   * survives the first pass, whose `trim` removes the break, and the second
   * pass then cuts the caption.
   */
  lemma CleanAltTwice()
    ensures CleanAlt(Some("x " + Disclaimer + "\n")) == "x " + Disclaimer
    ensures CleanAlt(Some(CleanAlt(Some("x " + Disclaimer + "\n")))) == "x"
  {
    assert "x " == ['x', ' '];
    CaptionThenBreakKept('x');
    CaptionAtEndCut('x');
  }
}
