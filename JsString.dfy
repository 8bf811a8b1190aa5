/**
 * The JavaScript string primitives the converter relies on, modelled over
 * `seq<char>` (one `char` per Unicode code point):
 *  - the character classes of ECMAScript regular expressions used by the
 *    program (`\s`, `\w`, `\b`, `.` and its line terminators);
 *  - ASCII case-insensitive comparison, which is what the `i` flag does for
 *    the all-ASCII patterns of the program when the `u` flag is absent;
 *  - `String.prototype.trim`, `split` and `join` on a one-character separator;
 *  - the UTF-16 length reported by `.length`;
 *  - Unicode case mapping and the `\p{L}` letter class, which are left
 *    uninterpreted: they are supplied by a `Casing` record.
 */
module JsString {

  /** A value that may be `undefined`. */
  datatype Option<T> = None | Some(value: T)

  /** ECMAScript LineTerminator: the characters `.` does not match. */
  predicate IsLineTerminator(c: char) {
    c == '\n' || c == '\r' || c as int == 0x2028 || c as int == 0x2029
  }

  /** ECMAScript WhiteSpace or LineTerminator: the class `\s`, and what `trim` removes. */
  predicate IsWhiteSpace(c: char) {
    || c == '\t' || c as int == 0x0B || c as int == 0x0C || c == ' '
    || c as int == 0xA0 || c as int == 0xFEFF || c as int == 0x1680
    || (0x2000 <= c as int <= 0x200A) || c as int == 0x202F
    || c as int == 0x205F || c as int == 0x3000
    || IsLineTerminator(c)
  }

  predicate AllWhiteSpace(s: string) {
    forall k :: 0 <= k < |s| ==> IsWhiteSpace(s[k])
  }

  /** The regex class `\w` (and the word characters of `\b`): `[A-Za-z0-9_]`. */
  predicate IsAsciiWord(c: char) {
    ('A' <= c <= 'Z') || ('a' <= c <= 'z') || ('0' <= c <= '9') || c == '_'
  }

  /** Case folding of the `i` flag restricted to ASCII letters. */
  function AsciiFold(c: char): (r: char)
    ensures ('A' <= c <= 'Z') ==> 'a' <= r <= 'z' && r as int == c as int + 32
    ensures !('A' <= c <= 'Z') ==> r == c
  {
    if 'A' <= c <= 'Z' then (c as int + 32) as char else c
  }

  /** `pat` occurs in `s` at index `i`, ignoring ASCII case. */
  predicate MatchesCI(s: string, i: nat, pat: string) {
    i + |pat| <= |s| && forall k :: 0 <= k < |pat| ==> AsciiFold(s[i + k]) == AsciiFold(pat[k])
  }

  /** Where `pat` matches ignoring case, each character folds to the pattern's. */
  lemma FoldsAt(s: string, i: nat, pat: string, k: nat)
    requires MatchesCI(s, i, pat) && k < |pat|
    ensures AsciiFold(s[i + k]) == AsciiFold(pat[k])
  {
  }

  /** `s` begins, ignoring ASCII case, with `pat`. */
  predicate StartsWithCI(s: string, pat: string) {
    MatchesCI(s, 0, pat)
  }

  /** No line terminator among `s[i..j]`: the span a `.*` may cover. */
  predicate LineFree(s: string, i: nat, j: nat)
    requires i <= j <= |s|
    decreases j - i
  {
    i == j || (!IsLineTerminator(s[i]) && LineFree(s, i + 1, j))
  }

  /** `LineFree` from the characters one by one. */
  lemma {:induction false} LineFreeAll(s: string, i: nat, j: nat)
    requires i <= j <= |s|
    requires forall m :: i <= m < j ==> !IsLineTerminator(s[m])
    ensures LineFree(s, i, j)
    decreases j - i
  {
    if i < j {
      LineFreeAll(s, i + 1, j);
    }
  }

  /** The character `c` does not occur in `s[i..j]`. */
  predicate Lacks(s: string, i: nat, j: nat, c: char)
    requires i <= j <= |s|
    decreases j - i
  {
    i == j || (s[i] != c && Lacks(s, i + 1, j, c))
  }

  /** `pat` occurs in `s` at index `k`. */
  predicate OccursAt(s: string, k: nat, pat: string) {
    k + |pat| <= |s| && s[k..k + |pat|] == pat
  }

  /** `String.prototype.includes`. */
  predicate Includes(s: string, pat: string) {
    exists k :: 0 <= k <= |s| - |pat| && OccursAt(s, k, pat)
  }

  /** The number of UTF-16 code units of `s`: code points above U+FFFF take two. */
  function Utf16Length(s: string): (n: nat)
    ensures |s| <= n <= 2 * |s|
  {
    if s == [] then 0
    else (if s[0] as int >= 0x10000 then 2 else 1) + Utf16Length(s[1..])
  }

  /** The index of the first character at or after `i` that is not white space. */
  function SkipSpace(s: string, i: nat): (k: nat)
    requires i <= |s|
    ensures i <= k <= |s| && (k == |s| || !IsWhiteSpace(s[k]))
    ensures forall m :: i <= m < k ==> IsWhiteSpace(s[m])
    decreases |s| - i
  {
    if i < |s| && IsWhiteSpace(s[i]) then SkipSpace(s, i + 1) else i
  }

  /** The index just after the last character before `j`, and at or after `lo`, that is not white space. */
  function SkipSpaceBack(s: string, lo: nat, j: nat): (k: nat)
    requires lo <= j <= |s|
    ensures lo <= k <= j && (k == lo || !IsWhiteSpace(s[k - 1]))
    ensures forall m :: k <= m < j ==> IsWhiteSpace(s[m])
    decreases j
  {
    if lo < j && IsWhiteSpace(s[j - 1]) then SkipSpaceBack(s, lo, j - 1) else j
  }

  /** `String.prototype.trim`: white space removed from both ends. */
  function Trim(s: string): (r: string)
    ensures |r| <= |s|
    ensures r == [] || (!IsWhiteSpace(r[0]) && !IsWhiteSpace(r[|r| - 1]))
  {
    var a := SkipSpace(s, 0);
    s[a..SkipSpaceBack(s, a, |s|)]
  }

  /** Trimming leaves nothing exactly when the string is all white space. */
  lemma TrimEmpty(s: string)
    ensures Trim(s) == [] <==> AllWhiteSpace(s)
  {
    var a := SkipSpace(s, 0);
    if Trim(s) == [] {
      var b := SkipSpaceBack(s, a, |s|);
      assert b == a;
      assert a == |s|;
    }
  }

  /**
   * `Trim` is characterised by the decomposition it undoes: whatever white
   * space surrounds a core that neither starts nor ends with white space,
   * trimming gives back exactly that core.
   */
  lemma TrimExact(lead: string, core: string, trail: string)
    requires AllWhiteSpace(lead) && AllWhiteSpace(trail)
    requires core == [] || (!IsWhiteSpace(core[0]) && !IsWhiteSpace(core[|core| - 1]))
    ensures Trim(lead + core + trail) == core
  {
    var s := lead + core + trail;
    var a := |lead| + |core|;
    if core == [] {
      SkipSpaceExact(s, 0, |s|);
    } else {
      SkipSpaceExact(s, 0, |lead|);
      SkipSpaceBackExact(s, |lead|, |s|, a);
      assert s[|lead|..a] == core;
    }
  }

  lemma {:induction false} SkipSpaceExact(s: string, i: nat, k: nat)
    requires i <= k <= |s| && (k == |s| || !IsWhiteSpace(s[k]))
    requires forall m :: i <= m < k ==> IsWhiteSpace(s[m])
    ensures SkipSpace(s, i) == k
    decreases k - i
  {
    if i < k {
      SkipSpaceExact(s, i + 1, k);
    }
  }

  lemma {:induction false} SkipSpaceBackExact(s: string, lo: nat, j: nat, k: nat)
    requires lo <= k <= j <= |s| && (k == lo || !IsWhiteSpace(s[k - 1]))
    requires forall m :: k <= m < j ==> IsWhiteSpace(s[m])
    ensures SkipSpaceBack(s, lo, j) == k
    decreases j - k
  {
    if k < j {
      SkipSpaceBackExact(s, lo, j - 1, k);
    }
  }

  /** The result of `Trim` is a contiguous piece of its input, surrounded only by white space. */
  lemma TrimIsInfix(s: string) returns (i: nat)
    ensures i + |Trim(s)| <= |s| && s[i..i + |Trim(s)|] == Trim(s)
    ensures forall m :: 0 <= m < i ==> IsWhiteSpace(s[m])
    ensures forall m :: i + |Trim(s)| <= m < |s| ==> IsWhiteSpace(s[m])
  {
    i := SkipSpace(s, 0);
  }

  /** Trimming never introduces a character. */
  lemma TrimDrawsFromInput(s: string)
    ensures multiset(Trim(s)) <= multiset(s)
  {
    var k := TrimIsInfix(s);
    InfixDrawsFrom(s, k, k + |Trim(s)|);
  }

  /** A slice is drawn from the whole sequence. */
  lemma InfixDrawsFrom(s: string, i: nat, j: nat)
    requires i <= j <= |s|
    ensures multiset(s[i..j]) <= multiset(s)
  {
    assert s == s[..i] + s[i..j] + s[j..];
  }

  /** `s.split(sep)` for a one-character separator: never empty, no piece holds `sep`. */
  function Split(s: string, sep: char): (parts: seq<string>)
    ensures |parts| >= 1
    ensures forall k :: 0 <= k < |parts| ==> sep !in parts[k]
  {
    if s == [] then [""]
    else
      var rest := Split(s[1..], sep);
      if s[0] == sep then [""] + rest
      else [[s[0]] + rest[0]] + rest[1..]
  }

  /** `parts.join(sep)`. */
  function Join(parts: seq<string>, sep: char): (s: string)
  {
    if |parts| == 0 then ""
    else if |parts| == 1 then parts[0]
    else parts[0] + [sep] + Join(parts[1..], sep)
  }

  /** Joining the pieces of a split gives back the original string. */
  lemma {:induction false} JoinSplit(s: string, sep: char)
    ensures Join(Split(s, sep), sep) == s
  {
    if s != [] {
      var rest := Split(s[1..], sep);
      JoinSplit(s[1..], sep);
      if s[0] == sep {
        assert s == [sep] + s[1..];
      } else if |rest| == 1 {
        assert s == [s[0]] + s[1..];
      } else {
        assert Join(rest, sep) == rest[0] + [sep] + Join(rest[1..], sep);
        assert s == [s[0]] + s[1..];
      }
    }
  }

  /** Splitting a join of separator-free pieces gives back the pieces. */
  lemma {:induction false} SplitJoin(parts: seq<string>, sep: char)
    requires |parts| >= 1
    requires forall k :: 0 <= k < |parts| ==> sep !in parts[k]
    ensures Split(Join(parts, sep), sep) == parts
  {
    if |parts| == 1 {
      SplitFree(parts[0], sep);
    } else {
      SplitJoin(parts[1..], sep);
      SplitPrefix(parts[0], Join(parts[1..], sep), sep);
      assert Join(parts, sep) == parts[0] + ([sep] + Join(parts[1..], sep));
      assert [parts[0]] + parts[1..] == parts;
    }
  }

  lemma {:induction false} SplitFree(s: string, sep: char)
    requires sep !in s
    ensures Split(s, sep) == [s]
  {
    if s != [] {
      SplitFree(s[1..], sep);
      assert [s[0]] + s[1..] == s;
    }
  }

  /** A separator-free head becomes the first piece; the rest splits on its own. */
  lemma {:induction false} SplitPrefix(head: string, tail: string, sep: char)
    requires sep !in head
    ensures Split(head + [sep] + tail, sep) == [head] + Split(tail, sep)
  {
    if head == [] {
      assert head + [sep] + tail == [sep] + tail;
      assert ([sep] + tail)[1..] == tail;
    } else {
      var s := head + [sep] + tail;
      assert s[1..] == head[1..] + [sep] + tail;
      SplitPrefix(head[1..], tail, sep);
      assert [head[0]] + head[1..] == head;
    }
  }

  /**
   * The Unicode case mappings and the `\p{L}` class, left uninterpreted.
   * The model maps one code point to one code point.
   */
  datatype Casing = Casing(lower: char -> char, upper: char -> char, isLetter: char -> bool)

  /** `toLowerCase`, code point by code point. */
  function Lower(cs: Casing, s: string): (r: string)
    ensures |r| == |s| && forall k :: 0 <= k < |s| ==> r[k] == cs.lower(s[k])
  {
    seq(|s|, k requires 0 <= k < |s| => cs.lower(s[k]))
  }

  /** `toUpperCase`, code point by code point. */
  function Upper(cs: Casing, s: string): (r: string)
    ensures |r| == |s| && forall k :: 0 <= k < |s| ==> r[k] == cs.upper(s[k])
  {
    seq(|s|, k requires 0 <= k < |s| => cs.upper(s[k]))
  }

  /** The casing agrees with plain ASCII on ASCII letters, digits, `_` and the space. */
  predicate AsciiCompatible(cs: Casing) {
    && (forall c: char :: 'A' <= c <= 'Z' ==> cs.lower(c) == AsciiFold(c) && cs.upper(c) == c && cs.isLetter(c))
    && (forall c: char :: 'a' <= c <= 'z' ==> cs.lower(c) == c && cs.upper(c) == (c as int - 32) as char && cs.isLetter(c))
    && cs.lower(' ') == ' ' && !cs.isLetter(' ')
  }
}
