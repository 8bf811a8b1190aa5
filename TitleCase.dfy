/**
 * `toTitleCase` (server.cjs): the string is lower-cased, then every letter
 * (`\p{L}`) found at a word boundary `\b` is upper-cased.
 *
 * With the `u` flag but without `i`, `\b` still compares ASCII word characters
 * `[A-Za-z0-9_]` only, so a boundary also falls between an ASCII letter and a
 * non-ASCII one: "canción" becomes "CanciÓN".
 */
module TitleCase {
  import opened JsString

  /** `\b` before index `i`: exactly one of `s[i-1]` and `s[i]` is an ASCII word character (the start counts as non-word). */
  predicate AtBoundary(s: string, i: nat)
    requires i < |s|
  {
    IsAsciiWord(s[i]) != (i > 0 && IsAsciiWord(s[i - 1]))
  }

  /** Whether `/\b\p{L}/` matches the single character at `i`. */
  predicate Capitalised(cs: Casing, s: string, i: nat)
    requires i < |s|
  {
    AtBoundary(s, i) && cs.isLetter(s[i])
  }

  /** The character the replace leaves at index `i` of the lower-cased string `s`. */
  function TitleChar(cs: Casing, s: string, i: nat): char
    requires i < |s|
  {
    if Capitalised(cs, s, i) then cs.upper(s[i]) else s[i]
  }

  /**
   * The global replace of `/\b\p{L}/gu` by the upper-cased match, from index `i`:
   * every match is one character long, so the scan moves on by one either way.
   */
  function CapitaliseFrom(cs: Casing, s: string, i: nat): (r: string)
    requires i <= |s|
    ensures |r| == |s| - i
    ensures forall k :: i <= k < |s| ==> r[k - i] == TitleChar(cs, s, k)
    decreases |s| - i
  {
    if i == |s| then ""
    else [TitleChar(cs, s, i)] + CapitaliseFrom(cs, s, i + 1)
  }

  /** `toTitleCase`: the lower-cased string with each letter at a boundary upper-cased. */
  function ToTitleCase(cs: Casing, s: string): (r: string)
    ensures |r| == |s|
    ensures forall k :: 0 <= k < |s| ==> r[k] == TitleChar(cs, Lower(cs, s), k)
  {
    CapitaliseFrom(cs, Lower(cs, s), 0)
  }

  /** Characters not at a boundary, or not letters, come out exactly as lower-casing makes them. */
  lemma OnlyBoundaryLettersChange(cs: Casing, s: string, k: nat)
    requires k < |s|
    ensures ToTitleCase(cs, s)[k] != Lower(cs, s)[k] ==> Capitalised(cs, Lower(cs, s), k)
  {
  }

  lemma LowerConcat(cs: Casing, a: string, b: string)
    ensures Lower(cs, a + b) == Lower(cs, a) + Lower(cs, b)
  {
  }

  /** Capitalising a concatenation part by part, across a boundary that cannot capitalise or be word-joined. */
  lemma {:induction false} CapitaliseConcat(cs: Casing, la: string, lb: string)
    requires || (|la| > 0 && !IsAsciiWord(la[|la| - 1]))
             || (|lb| > 0 && !IsAsciiWord(lb[0]) && !cs.isLetter(lb[0]))
    ensures CapitaliseFrom(cs, la + lb, 0) == CapitaliseFrom(cs, la, 0) + CapitaliseFrom(cs, lb, 0)
  {
    var l := la + lb;
    forall k | |la| <= k < |l| ensures TitleChar(cs, l, k) == TitleChar(cs, lb, k - |la|) {
      if k > |la| {
        assert l[k - 1] == lb[k - |la| - 1];
      }
    }
    forall k | 0 <= k < |la| ensures TitleChar(cs, l, k) == TitleChar(cs, la, k) {
      if k > 0 {
        assert l[k - 1] == la[k - 1];
      }
    }
    var r, ra, rb := CapitaliseFrom(cs, l, 0), CapitaliseFrom(cs, la, 0), CapitaliseFrom(cs, lb, 0);
    forall k | 0 <= k < |l| ensures r[k] == (ra + rb)[k] {
      if k < |la| {
        assert r[k] == TitleChar(cs, l, k);
      } else {
        assert r[k] == TitleChar(cs, l, k);
        assert rb[k - |la|] == TitleChar(cs, lb, k - |la|);
      }
    }
    assert r == ra + rb;
  }

  /**
   * A string is title-cased in two independent parts when the first part ends
   * with a character that lower-cases to a non-word character, or the second
   * starts with one that lower-cases to a non-word non-letter.
   */
  lemma SplitAtNonWord(cs: Casing, a: string, b: string)
    requires || (|a| > 0 && !IsAsciiWord(cs.lower(a[|a| - 1])))
             || (|b| > 0 && !IsAsciiWord(cs.lower(b[0])) && !cs.isLetter(cs.lower(b[0])))
    ensures ToTitleCase(cs, a + b) == ToTitleCase(cs, a) + ToTitleCase(cs, b)
  {
    LowerConcat(cs, a, b);
    CapitaliseConcat(cs, Lower(cs, a), Lower(cs, b));
  }

  predicate IsAsciiLetter(c: char) {
    ('A' <= c <= 'Z') || ('a' <= c <= 'z')
  }

  function AsciiUpper(c: char): (r: char)
    ensures IsAsciiLetter(c) ==> 'A' <= r <= 'Z' && AsciiFold(r) == AsciiFold(c)
  {
    if 'a' <= c <= 'z' then (c as int - 32) as char else c
  }

  /** The ASCII case folding of a whole string; the ensures is the definition, spelled out for callers. */
  function AsciiLower(s: string): (r: string)
    ensures |r| == |s| && forall k :: 0 <= k < |s| ==> r[k] == AsciiFold(s[k])
  {
    seq(|s|, k requires 0 <= k < |s| => AsciiFold(s[k]))
  }

  lemma LowerAsciiLetter(cs: Casing, c: char)
    requires AsciiCompatible(cs) && IsAsciiLetter(c)
    ensures cs.lower(c) == AsciiFold(c) && 'a' <= cs.lower(c) <= 'z' && IsAsciiWord(cs.lower(c))
    ensures cs.isLetter(cs.lower(c)) && cs.upper(cs.lower(c)) == AsciiUpper(c)
  {
  }

  /** A word of ASCII letters gets its first letter upper-cased and the rest lower-cased. */
  lemma AsciiWord(cs: Casing, w: string)
    requires AsciiCompatible(cs)
    requires |w| > 0 && forall k :: 0 <= k < |w| ==> IsAsciiLetter(w[k])
    ensures ToTitleCase(cs, w) == [AsciiUpper(w[0])] + AsciiLower(w[1..])
  {
    var l := Lower(cs, w);
    var r := ToTitleCase(cs, w);
    var e := [AsciiUpper(w[0])] + AsciiLower(w[1..]);
    assert IsAsciiWord(l[0]) by { LowerAsciiLetter(cs, w[0]); }
    assert r[0] == e[0] by { LowerAsciiLetter(cs, w[0]); }
    forall k | 1 <= k < |w| ensures r[k] == e[k] {
      LowerAsciiLetter(cs, w[k]);
      LowerAsciiLetter(cs, w[k - 1]);
      assert !AtBoundary(l, k);
      assert e[k] == AsciiFold(w[k]);
    }
    assert r == e;
  }

  /** Two words of ASCII letters separated by a space are capitalised independently. */
  lemma TwoAsciiWords(cs: Casing, v: string, w: string)
    requires AsciiCompatible(cs)
    requires |v| > 0 && forall k :: 0 <= k < |v| ==> IsAsciiLetter(v[k])
    requires |w| > 0 && forall k :: 0 <= k < |w| ==> IsAsciiLetter(w[k])
    ensures ToTitleCase(cs, v + " " + w) == [AsciiUpper(v[0])] + AsciiLower(v[1..]) + " " + [AsciiUpper(w[0])] + AsciiLower(w[1..])
  {
    AsciiWord(cs, v);
    AsciiWord(cs, w);
    SplitAtNonWord(cs, v, " ");
    SplitAtNonWord(cs, v + " ", w);
    assert ToTitleCase(cs, " ") == " ";
  }

  /** With ASCII case rules: "hELLO wORLD" gives "Hello World". */
  lemma HelloWorld(cs: Casing)
    requires AsciiCompatible(cs)
    ensures ToTitleCase(cs, "hELLO wORLD") == "Hello World"
  {
    TwoAsciiWords(cs, "hELLO", "wORLD");
    assert "hELLO" + " " + "wORLD" == "hELLO wORLD";
  }

  /**
   * Word boundaries are ASCII ones: with ASCII case rules and `ó` a lower-case
   * letter whose upper case is `Ó`, "canción" gives "CanciÓN".
   */
  lemma Cancion(cs: Casing)
    requires AsciiCompatible(cs)
    requires cs.lower('ó') == 'ó' && cs.upper('ó') == 'Ó' && cs.isLetter('ó')
    ensures ToTitleCase(cs, "canción") == "CanciÓN"
  {
    var s := "canción";
    var r := ToTitleCase(cs, s);
    var l := Lower(cs, s);
    assert l == s;
    forall k | 0 <= k < |s| ensures r[k] == "CanciÓN"[k] {
      if 1 <= k <= 4 {
        assert !Capitalised(cs, l, k);
      }
    }
  }
}
