/** Character classes and whitespace trimming shared by the filename parser:
    one whitespace predicate serves both the regular-expression class `\s`
    and Python's `str.strip()`, which agree on `str` values. */
module Text {

  datatype Option<T> = None | Some(value: T)

  /** Python's `str.isspace()`: the characters `\s` matches in a `str` pattern
      and the ones `str.strip()` removes. */
  predicate IsSpace(c: char) {
    ('\t' <= c <= '\r') || ('\U{1C}' <= c <= '\U{1F}') || c == ' '
    || c == '\U{85}' || c == '\U{A0}' || c == '\U{1680}'
    || ('\U{2000}' <= c <= '\U{200A}') || c == '\U{2028}' || c == '\U{2029}'
    || c == '\U{202F}' || c == '\U{205F}' || c == '\U{3000}'
  }

  /** No whitespace anywhere in `s`: what `[^\s]+` matches (when non-empty). */
  predicate NoSpace(s: string) {
    forall j :: 0 <= j < |s| ==> !IsSpace(s[j])
  }

  /** Only whitespace in `s`: what `\s+` matches (when non-empty). */
  predicate AllSpace(s: string) {
    forall j :: 0 <= j < |s| ==> IsSpace(s[j])
  }

  /** Neither leading nor trailing whitespace: the shape `strip()` leaves. */
  predicate Trimmed(s: string) {
    s == [] || (!IsSpace(s[0]) && !IsSpace(s[|s| - 1]))
  }

  /** Length of the leading whitespace run of `s`. */
  function LeadingSpaces(s: string): (n: nat)
    ensures n <= |s|
    ensures forall j :: 0 <= j < n ==> IsSpace(s[j])
    ensures n == |s| || !IsSpace(s[n])
  {
    if s == [] || !IsSpace(s[0]) then 0 else 1 + LeadingSpaces(s[1..])
  }

  /** Length of the trailing whitespace run of `s`. */
  function TrailingSpaces(s: string): (n: nat)
    ensures n <= |s|
    ensures forall j :: |s| - n <= j < |s| ==> IsSpace(s[j])
    ensures n == |s| || !IsSpace(s[|s| - n - 1])
  {
    if s == [] || !IsSpace(s[|s| - 1]) then 0 else 1 + TrailingSpaces(s[..|s| - 1])
  }

  /** Length of the leading non-whitespace run of `s`. */
  function TokenLength(s: string): (n: nat)
    ensures n <= |s|
    ensures forall j :: 0 <= j < n ==> !IsSpace(s[j])
    ensures n == |s| || IsSpace(s[n])
  {
    if s == [] || IsSpace(s[0]) then 0 else 1 + TokenLength(s[1..])
  }

  /** Python's `str.strip()` with no argument: `r` is the slice of `s` left once the
      whitespace on both sides is gone. */
  function Strip(s: string): (r: string)
    ensures Trimmed(r)
    ensures |r| <= |s|
    ensures exists i :: StripsTo(s, i, r)
  {
    var i := LeadingSpaces(s);
    var t := s[i..];
    var n := TrailingSpaces(t);
    var r := t[..|t| - n];
    assert StripsTo(s, i, r);
    r
  }

  /** `r` sits at offset `i` of `s` with only whitespace before and after it. */
  ghost predicate StripsTo(s: string, i: int, r: string) {
    0 <= i <= |s| - |r| && r == s[i..i + |r|]
    && (forall j :: 0 <= j < i ==> IsSpace(s[j]))
    && (forall j :: i + |r| <= j < |s| ==> IsSpace(s[j]))
  }

  /** `Strip` leaves a string that already has no surrounding whitespace as it is. */
  lemma StripTrimmed(s: string)
    requires Trimmed(s)
    ensures Strip(s) == s
  {
    StripUnique(s, 0, s);
  }

  /** A trimmed slice with only whitespace around it is exactly what `Strip` returns. */
  lemma StripUnique(x: string, a: int, t: string)
    requires StripsTo(x, a, t) && Trimmed(t)
    ensures Strip(x) == t
  {
    var r := Strip(x);
    var i :| StripsTo(x, i, r);
    if t != [] && r != [] {
      assert x[a] == t[0] && x[a + |t| - 1] == t[|t| - 1];
      assert x[i] == r[0] && x[i + |r| - 1] == r[|r| - 1];
      assert i == a;
      assert i + |r| == a + |t|;
    }
  }

  /** Dropping some leading whitespace first does not change what `Strip` returns. */
  lemma StripSkipLeading(s: string, k: nat)
    requires k <= |s| && forall j :: 0 <= j < k ==> IsSpace(s[j])
    ensures Strip(s[k..]) == Strip(s)
  {
    var r := Strip(s[k..]);
    var i :| StripsTo(s[k..], i, r);
    StripsToShift(s, k, i, r);
    StripUnique(s, k + i, r);
  }

  /** Whitespace put in front of a string moves its stripped core to the right. */
  lemma StripsToShift(s: string, k: nat, i: int, r: string)
    requires k <= |s| && forall j :: 0 <= j < k ==> IsSpace(s[j])
    requires StripsTo(s[k..], i, r)
    ensures StripsTo(s, k + i, r)
  {
  }

  /** ASCII lower-casing of one character. */
  function ToLowerChar(c: char): char {
    if 'A' <= c <= 'Z' then (c as int + 32) as char else c
  }

  /** ASCII lower-casing of a string, character by character. */
  function ToLower(s: string): string {
    seq(|s|, j requires 0 <= j < |s| => ToLowerChar(s[j]))
  }

  /** Python's `str.endswith` for a single suffix. */
  predicate EndsWith(s: string, suffix: string) {
    |suffix| <= |s| && s[|s| - |suffix|..] == suffix
  }
}
