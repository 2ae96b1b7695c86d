/** The two pieces of java.lang behaviour the core relies on: String.trim,
    which removes every character at or below U+0020 from both ends, and the
    decimal rendering of a non-negative Long in string concatenation. */
module JavaString {

  /** A character String.trim removes: any code point up to and including the space. */
  predicate IsTrimChar(c: char) {
    c <= ' '
  }

  /** Neither end of `s` is a character String.trim would remove. */
  predicate IsTrimmed(s: string) {
    s == [] || (!IsTrimChar(s[0]) && !IsTrimChar(s[|s| - 1]))
  }

  /** `s` without its leading trim characters: a suffix of `s`. */
  function TrimStart(s: string): (r: string)
    ensures |r| <= |s| && r == s[|s| - |r|..]
    ensures r == [] || !IsTrimChar(r[0])
    ensures forall k :: 0 <= k < |s| - |r| ==> IsTrimChar(s[k])
  {
    if |s| > 0 && IsTrimChar(s[0]) then TrimStart(s[1..]) else s
  }

  /** `s` without its trailing trim characters: a prefix of `s`. */
  function TrimEnd(s: string): (r: string)
    ensures |r| <= |s| && r == s[..|r|]
    ensures r == [] || !IsTrimChar(r[|r| - 1])
    ensures forall k :: |r| <= k < |s| ==> IsTrimChar(s[k])
  {
    if |s| > 0 && IsTrimChar(s[|s| - 1]) then TrimEnd(s[..|s| - 1]) else s
  }

  /** `r` is the slice of `s` that starts at `a`, and every character of `s`
      outside that slice is a trim character. */
  predicate TrimsTo(s: string, a: nat, r: string) {
    && a + |r| <= |s|
    && r == s[a..a + |r|]
    && (forall k :: 0 <= k < a ==> IsTrimChar(s[k]))
    && (forall k :: a + |r| <= k < |s| ==> IsTrimChar(s[k]))
  }

  /** java.lang.String.trim: the slice of `s` between its leading and its
      trailing run of trim characters. */
  function Trim(s: string): (r: string)
    ensures IsTrimmed(r)
    ensures TrimsTo(s, |s| - |TrimStart(s)|, r)
  {
    var t := TrimStart(s);
    var r := TrimEnd(t);
    MiddleOfSuffix(s, t, r);
    r
  }

  /** A prefix `r` of a suffix `t` of `s`, with only trim characters cut from
      either, is the trimmed middle of `s`. */
  lemma MiddleOfSuffix(s: string, t: string, r: string)
    requires |t| <= |s| && t == s[|s| - |t|..]
    requires t == [] || !IsTrimChar(t[0])
    requires forall k :: 0 <= k < |s| - |t| ==> IsTrimChar(s[k])
    requires |r| <= |t| && r == t[..|r|]
    requires r == [] || !IsTrimChar(r[|r| - 1])
    requires forall k :: |r| <= k < |t| ==> IsTrimChar(t[k])
    ensures IsTrimmed(r)
    ensures TrimsTo(s, |s| - |t|, r)
  {
    var a := |s| - |t|;
    assert r != [] ==> r[0] == t[0];
    forall k | a + |r| <= k < |s|
      ensures IsTrimChar(s[k])
    {
      assert s[k] == t[k - a];
    }
  }

  /** `s.trim().isEmpty()`, which is also how a not-blank validation constraint decides. */
  predicate IsBlank(s: string) {
    Trim(s) == []
  }

  /** A string that is already trimmed is left alone by String.trim. */
  lemma {:induction false} TrimOfTrimmed(s: string)
    requires IsTrimmed(s)
    ensures Trim(s) == s
  {
    if s != [] {
      assert TrimStart(s) == s;
      assert TrimEnd(s) == s;
    }
  }

  /** String.trim is idempotent. */
  lemma {:induction false} TrimIdempotent(s: string)
    ensures Trim(Trim(s)) == Trim(s)
  {
    TrimOfTrimmed(Trim(s));
  }

  /** A string is blank exactly when every one of its characters is a trim character. */
  lemma {:induction false} BlankIffAllTrimChars(s: string)
    ensures IsBlank(s) <==> forall k :: 0 <= k < |s| ==> IsTrimChar(s[k])
  {
    if forall k :: 0 <= k < |s| ==> IsTrimChar(s[k]) {
      AllTrimCharsTrimStartEmpty(s);
    }
  }

  /** A leading trim character makes no difference to String.trim. */
  lemma LeadingTrimCharIgnored(c: char, s: string)
    requires IsTrimChar(c)
    ensures Trim([c] + s) == Trim(s)
  {
    assert ([c] + s)[1..] == s;
  }

  /** Trimming the start of a string made only of trim characters leaves nothing. */
  lemma {:induction false} AllTrimCharsTrimStartEmpty(s: string)
    requires forall k :: 0 <= k < |s| ==> IsTrimChar(s[k])
    ensures TrimStart(s) == []
  {
    if s != [] {
      assert forall k :: 0 <= k < |s[1..]| ==> s[1..][k] == s[k + 1];
      AllTrimCharsTrimStartEmpty(s[1..]);
    }
  }

  /** A trimmed string that is not empty is not blank. */
  lemma {:induction false} TrimmedNonEmptyNotBlank(s: string)
    requires IsTrimmed(s) && s != []
    ensures !IsBlank(s)
  {
    TrimOfTrimmed(s);
  }

  /** The character of a decimal digit 0..9. */
  function DigitChar(d: nat): char
    requires d < 10
  {
    (48 + d) as char
  }

  /** The number a string of decimal digits denotes, most significant first. */
  function DigitsValue(s: string): nat
    requires forall k :: 0 <= k < |s| ==> '0' <= s[k] <= '9'
  {
    if s == [] then 0 else 10 * DigitsValue(s[..|s| - 1]) + (s[|s| - 1] as int - 48)
  }

  /** The decimal digits of `n`, as Java renders a non-negative Long in a
      string concatenation: they denote `n`, so distinct ids give distinct
      texts. */
  function Decimal(n: nat): (r: string)
    ensures |r| > 0
    ensures forall k :: 0 <= k < |r| ==> '0' <= r[k] <= '9'
    ensures r[0] == '0' ==> n == 0
    ensures DigitsValue(r) == n
  {
    if n < 10 then [DigitChar(n)] else Decimal(n / 10) + [DigitChar(n % 10)]
  }
}
