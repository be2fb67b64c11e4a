/** The C string and character conventions the codec relies on: NUL
    termination, ASCII classification (yaz_isdigit, yaz_isupper, ...),
    strchr/strstr and the decimal text that sprintf's %d produces. */
module CStrings {
  import opened Wrappers

  /** The character a C pointer at offset i reads: past the end of the
      sequence it reads the terminating NUL. */
  function At(s: string, i: nat): char {
    if i < |s| then s[i] else '\0'
  }

  /** The C string a character sequence denotes: its characters up to the
      first NUL (what strlen, strcpy, strcmp and "%s" see). */
  function CStr(s: string): (r: string)
    ensures |r| <= |s| && forall k :: 0 <= k < |r| ==> r[k] == s[k]
    ensures forall k :: 0 <= k < |r| ==> r[k] != '\0'
    ensures |r| < |s| ==> s[|r|] == '\0'
  {
    if |s| == 0 || s[0] == '\0' then [] else [s[0]] + CStr(s[1..])
  }

  predicate NoNul(s: string) {
    forall k :: 0 <= k < |s| ==> s[k] != '\0'
  }

  /** A sequence without NUL is its own C string. */
  lemma CStrOfNoNul(s: string)
    requires NoNul(s)
    ensures CStr(s) == s
  {
  }

  /** The C string of a NUL-free text followed by a NUL-free text. */
  lemma CStrOfConcat(a: string, b: string)
    requires NoNul(a) && NoNul(b)
    ensures NoNul(a + b) && CStr(a + b) == a + b
  {
    assert forall k :: 0 <= k < |a + b| ==> (a + b)[k] == if k < |a| then a[k] else b[k - |a|];
    CStrOfNoNul(a + b);
  }

  predicate IsDigit(c: char) {
    '0' <= c <= '9'
  }

  predicate IsUpper(c: char) {
    'A' <= c <= 'Z'
  }

  predicate IsLower(c: char) {
    'a' <= c <= 'z'
  }

  /** ASCII lower-casing (yaz_tolower applied only to upper-case letters). */
  function ToLower(c: char): char {
    if IsUpper(c) then (c as int + 32) as char else c
  }

  /** strcasecmp(a, lit) == 0 for a literal lit (which holds no NUL): the C
      string a has the length of lit and agrees with it character by
      character after ASCII lower-casing. */
  predicate CaseEqual(a: string, lit: string) {
    var x := CStr(a);
    |x| == |lit| && forall k :: 0 <= k < |x| ==> ToLower(x[k]) == ToLower(lit[k])
  }

  // ---- decimal digits: sprintf("%d") and the digit-accumulating loops ----

  function DigitChar(d: nat): (c: char)
    requires d < 10
    ensures IsDigit(c)
  {
    ('0' as int + d) as char
  }

  function DigitValue(c: char): int {
    c as int - '0' as int
  }

  /** Decimal text of a non-negative number, most significant digit first. */
  function NatToDecimal(n: nat): (s: string)
    ensures |s| >= 1
    ensures forall k :: 0 <= k < |s| ==> IsDigit(s[k])
    decreases n
  {
    if n < 10 then [DigitChar(n)] else NatToDecimal(n / 10) + [DigitChar(n % 10)]
  }

  /** What sprintf's %d writes for an int. */
  function IntToDecimal(n: int): string {
    if n < 0 then "-" + NatToDecimal(-n) else NatToDecimal(n)
  }

  /** The value `v = v*10 + (c - '0')` accumulates over a run of digits. */
  function DigitsValue(s: string): int {
    if |s| == 0 then 0 else DigitsValue(s[..|s| - 1]) * 10 + DigitValue(s[|s| - 1])
  }

  /** Reading back the decimal text of n gives n. */
  lemma {:induction false} DecimalRoundTrip(n: nat)
    ensures DigitsValue(NatToDecimal(n)) == n
  {
    if n >= 10 {
      var s := NatToDecimal(n);
      assert s[..|s| - 1] == NatToDecimal(n / 10);
      DecimalRoundTrip(n / 10);
    }
  }

  // ---- strchr / strstr ----

  /** strchr: the first index of c in s. */
  function FindChar(s: string, c: char): (r: Option<nat>)
    ensures r.Some? ==> r.value < |s| && s[r.value] == c
    ensures r.Some? ==> forall k :: 0 <= k < r.value ==> s[k] != c
    ensures r.None? ==> forall k :: 0 <= k < |s| ==> s[k] != c
  {
    if |s| == 0 then None
    else if s[0] == c then Some(0)
    else match FindChar(s[1..], c)
      case None => None
      case Some(k) => Some(k + 1)
  }

  predicate OccursAt(s: string, pat: string, k: nat) {
    k + |pat| <= |s| && s[k..k + |pat|] == pat
  }

  /** strstr: the first index, from k on, where pat occurs in s. */
  function FindSub(s: string, pat: string, k: nat): (r: Option<nat>)
    requires k <= |s|
    ensures r.Some? ==> k <= r.value && OccursAt(s, pat, r.value)
    ensures r.Some? ==> forall m :: k <= m < r.value ==> !OccursAt(s, pat, m)
    ensures r.None? ==> forall m :: k <= m <= |s| ==> !OccursAt(s, pat, m)
    decreases |s| - k
  {
    if OccursAt(s, pat, k) then Some(k)
    else if k == |s| then None
    else FindSub(s, pat, k + 1)
  }

  /** Two strings that agree at every index are equal. */
  lemma SameChars(a: string, b: string)
    requires |a| == |b| && forall k :: 0 <= k < |a| ==> a[k] == b[k]
    ensures a == b
  {
  }
}
