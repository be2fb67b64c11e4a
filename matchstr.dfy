/** The string comparators of src/matchstr.c: yaz_matchstr (header-name
    matching with case folding and the `-`, `.` and `?` conventions),
    yaz_strcmp_del (comparison up to a delimiter) and yaz_memcmp. */
module Matchstr {
  import opened Wrappers
  import opened CStrings

  /** A C string pointer that points at the terminating NUL. */
  predicate Ended(s: string) {
    |s| == 0 || s[0] == '\0'
  }

  /** yaz_matchstr(s1, s2) == 0. At each step a `?` in s2 accepts whatever
      follows; one `-` is skipped on either side; a `.` in s2 matches any
      character; other characters are compared after ASCII lower-casing. */
  predicate Matches(s1: string, s2: string)
    decreases |s1|
  {
    if Ended(s1) || Ended(s2) then Ended(s1) && Ended(s2)
    else if s2[0] == '?' then true
    else
      var t1 := if s1[0] == '-' then s1[1..] else s1;
      var t2 := if s2[0] == '-' then s2[1..] else s2;
      if Ended(t1) || Ended(t2) then Ended(t1) && Ended(t2)
      else (t2[0] == '.' || ToLower(t1[0]) == ToLower(t2[0])) && Matches(t1[1..], t2[1..])
  }

  /** yaz_matchstr: 0 for a match, 1 otherwise. The two cursors walk the
      strings in lockstep as in the source. */
  method MatchStr(s1: string, s2: string) returns (r: int)
    ensures r == 0 <==> Matches(s1, s2)
    ensures r == 0 || r == 1
  {
    var i, j := 0, 0;
    while At(s1, i) != '\0' && At(s2, j) != '\0'
      invariant i <= |s1| && j <= |s2|
      invariant Matches(s1, s2) == Matches(s1[i..], s2[j..])
      decreases |s1| - i
    {
      var c1, c2 := s1[i], s2[j];
      if c2 == '?' {
        return 0;
      }
      if c1 == '-' {
        i := i + 1;
        c1 := At(s1, i);
      }
      if c2 == '-' {
        j := j + 1;
        c2 := At(s2, j);
      }
      if c1 == '\0' || c2 == '\0' {
        break;
      }
      if c2 != '.' {
        c1, c2 := ToLower(c1), ToLower(c2);
        if c1 != c2 {
          break;
        }
      }
      assert s1[i..][1..] == s1[i + 1..] && s2[j..][1..] == s2[j + 1..];
      i, j := i + 1, j + 1;
    }
    r := if At(s1, i) != '\0' || At(s2, j) != '\0' then 1 else 0;
  }

  /** Characters with a meaning of their own in yaz_matchstr, and NUL. */
  predicate Plain(s: string) {
    forall k :: 0 <= k < |s| ==> s[k] !in {'-', '?', '.', '\0'}
  }

  function Lowered(s: string): (r: string)
    ensures |r| == |s|
    ensures forall k :: 0 <= k < |s| ==> r[k] == ToLower(s[k])
  {
    seq(|s|, k requires 0 <= k < |s| => ToLower(s[k]))
  }

  /** Without `-`, `?` and `.`, yaz_matchstr is case-insensitive equality:
      it matches exactly when the strings agree after lower-casing, so in
      particular a string exhausted before the other never matches. */
  lemma {:induction false} MatchesPlainIff(s1: string, s2: string)
    requires Plain(s1) && Plain(s2)
    ensures Matches(s1, s2) <==> Lowered(s1) == Lowered(s2)
    decreases |s1|
  {
    if Ended(s1) || Ended(s2) {
      if |s1| != |s2| {
        assert |Lowered(s1)| != |Lowered(s2)|;
      }
    } else {
      MatchesPlainIff(s1[1..], s2[1..]);
      if Lowered(s1) == Lowered(s2) {
        assert Lowered(s1[1..]) == Lowered(s1)[1..];
        assert Lowered(s2[1..]) == Lowered(s2)[1..];
      }
      if Matches(s1, s2) {
        assert Lowered(s1) == [ToLower(s1[0])] + Lowered(s1[1..]);
        assert Lowered(s2) == [ToLower(s2[0])] + Lowered(s2[1..]);
      }
    }
  }

  /** yaz_matchstr(s, s) == 0 for every s: both cursors advance in lockstep. */
  lemma {:induction false} MatchesReflexive(s: string)
    ensures Matches(s, s)
    decreases |s|
  {
    if !Ended(s) && s[0] != '?' {
      var t := if s[0] == '-' then s[1..] else s;
      if !Ended(t) {
        MatchesReflexive(t[1..]);
      }
    }
  }

  /** Once both strings agree (ignoring case) on a prefix free of special
      characters, a `?` in s2 at the next comparison position makes the
      match succeed, whatever follows in either string. */
  lemma {:induction false} QuestionMarkMatchesRest(s1: string, s2: string, k: nat)
    requires k < |s1| && k < |s2|
    requires Plain(s1[..k + 1]) && Plain(s2[..k])
    requires forall m :: 0 <= m < k ==> ToLower(s1[m]) == ToLower(s2[m])
    requires s2[k] == '?'
    ensures Matches(s1, s2)
    decreases k
  {
    if k > 0 {
      assert s1[1..][..k] == s1[1..k + 1] && s2[1..][..k - 1] == s2[1..k];
      assert s1[0] == s1[..k + 1][0] && s2[0] == s2[..k][0];
      QuestionMarkMatchesRest(s1[1..], s2[1..], k - 1);
    }
  }

  /** One `-` in s2 before a plain character is skipped: yaz_matchstr
      compares s1 with s2 as if it were not there. */
  lemma DashIsSkipped(s1: string, s2: string)
    requires !Ended(s1) && s1[0] != '-'
    requires |s2| > 0 && s2[0] !in {'-', '?'}
    ensures Matches(s1, "-" + s2) == Matches(s1, s2)
  {
    assert ("-" + s2)[1..] == s2;
  }

  /** After a prefix on which both strings agree ignoring case, with no
      special characters, yaz_matchstr goes on exactly as on the rest. */
  lemma {:induction false} MatchesAfterPlainPrefix(p1: string, p2: string, s1: string, s2: string)
    requires Plain(p1) && Plain(p2) && Lowered(p1) == Lowered(p2)
    ensures Matches(p1 + s1, p2 + s2) == Matches(s1, s2)
    decreases |p1|
  {
    if |p1| > 0 {
      assert ToLower(p1[0]) == Lowered(p1)[0];
      assert Lowered(p1[1..]) == Lowered(p1)[1..] && Lowered(p2[1..]) == Lowered(p2)[1..];
      assert (p1 + s1)[1..] == p1[1..] + s1 && (p2 + s2)[1..] == p2[1..] + s2;
      MatchesAfterPlainPrefix(p1[1..], p2[1..], s1, s2);
    } else {
      assert p1 + s1 == s1 && p2 + s2 == s2;
    }
  }

  /** A `-` at the same place in both strings is skipped on both sides. */
  lemma DashesAreSkipped(s1: string, s2: string)
    requires !Ended(s1) && !Ended(s2)
    ensures Matches("-" + s1, "-" + s2) ==
      ((s2[0] == '.' || ToLower(s1[0]) == ToLower(s2[0])) && Matches(s1[1..], s2[1..]))
  {
    assert ("-" + s1)[1..] == s1 && ("-" + s2)[1..] == s2;
  }

  /** Lower-case spelling: `content-length` matches `Content-Length`. */
  lemma LowerCaseNameMatches()
    ensures Matches("content-length", "Content-Length")
  {
    assert Plain("content") && Plain("Content");
    assert Lowered("content") == Lowered("Content");
    MatchesAfterPlainPrefix("content", "Content", "-length", "-Length");
    assert "content-length" == "content" + "-length";
    assert "Content-Length" == "Content" + "-Length";
    DashesAreSkipped("length", "Length");
    assert "length"[1..] == "ength" && "Length"[1..] == "ength";
    MatchesReflexive("ength");
  }

  /** Missing dash: `ContentLength` matches `Content-Length`. */
  lemma DashlessNameMatches()
    ensures Matches("ContentLength", "Content-Length")
  {
    assert Plain("Content");
    assert "ContentLength" == "Content" + "Length";
    assert "Content-Length" == "Content" + "-Length";
    MatchesAfterPlainPrefix("Content", "Content", "Length", "-Length");
    DashIsSkipped("Length", "Length");
    MatchesReflexive("Length");
  }

  /** A different name does not match: `Content-Type` against `Content-Length`. */
  lemma OtherNameDoesNotMatch()
    ensures !Matches("Content-Type", "Content-Length")
  {
    assert Plain("Content");
    assert "Content-Type" == "Content" + "-Type";
    assert "Content-Length" == "Content" + "-Length";
    MatchesAfterPlainPrefix("Content", "Content", "-Type", "-Length");
    DashesAreSkipped("Type", "Length");
  }

  // ---- yaz_strcmp_del ----

  /** strchr(b_del, c) != NULL: c is one of the delimiters, or NUL (strchr
      finds the terminator). */
  predicate IsDelimiter(del: string, c: char) {
    c == '\0' || c in CStr(del)
  }

  /** The value of a byte read through `const char *` where char is
      signed (x86 and x86-64): the bytes 0x80-0xFF are -128..-1. */
  function SignedChar(c: char): (v: int)
    ensures -128 <= v < 128 || v == c as int
    ensures v == 0 <==> c == '\0'
  {
    if 128 <= c as int < 256 then c as int - 256 else c as int
  }

  /** Distinct bytes stay distinct read as signed chars. */
  lemma SignedCharInjective(c: char, d: char)
    ensures SignedChar(c) == SignedChar(d) ==> c == d
  {
  }

  /** The value yaz_strcmp_del(a, b, b_del) returns: the difference of the
      first differing characters read as signed chars; where b stops at a
      delimiter, *a. */
  function DelCompare(a: string, b: string, del: Option<string>): int
    decreases |a|
  {
    if !Ended(a) && !Ended(b) then
      if a[0] != b[0] then SignedChar(a[0]) - SignedChar(b[0]) else DelCompare(a[1..], b[1..], del)
    else if del.Some? && IsDelimiter(del.value, At(b, 0)) then SignedChar(At(a, 0))
    else SignedChar(At(a, 0)) - SignedChar(At(b, 0))
  }

  /** yaz_strcmp_del, walking both strings with two cursors. */
  method StrCmpDel(a: string, b: string, del: Option<string>) returns (r: int)
    ensures r == DelCompare(a, b, del)
  {
    var i, j := 0, 0;
    while At(a, i) != '\0' && At(b, j) != '\0'
      invariant i == j && i <= |a| && j <= |b|
      invariant DelCompare(a, b, del) == DelCompare(a[i..], b[j..], del)
      decreases |a| - i
    {
      if a[i] != b[j] {
        return SignedChar(a[i]) - SignedChar(b[j]);
      }
      assert a[i..][1..] == a[i + 1..] && b[j..][1..] == b[j + 1..];
      i, j := i + 1, j + 1;
    }
    if del.Some? && IsDelimiter(del.value, At(b, j)) {
      return SignedChar(At(a, i));
    }
    r := SignedChar(At(a, i)) - SignedChar(At(b, j));
  }

  /** a equals b as C strings, or a equals the part of b before a
      delimiter. */
  predicate DelEqual(a: string, b: string, del: Option<string>) {
    CStr(a) == CStr(b) ||
    (del.Some? && |CStr(a)| < |CStr(b)| && CStr(a) == CStr(b)[..|CStr(a)|]
     && CStr(b)[|CStr(a)|] in CStr(del.value))
  }

  /** yaz_strcmp_del gives 0 exactly when a equals b as C strings, or when a
      equals the part of b before a delimiter. */
  lemma {:induction false} DelCompareZeroIff(a: string, b: string, del: Option<string>)
    ensures DelCompare(a, b, del) == 0 <==> DelEqual(a, b, del)
    decreases |a|
  {
    if !Ended(a) && !Ended(b) {
      if a[0] == b[0] {
        DelCompareZeroIff(a[1..], b[1..], del);
        DelEqualStep(a, b, del);
      } else {
        SignedCharInjective(a[0], b[0]);
        assert CStr(a)[0] != CStr(b)[0];
      }
    } else if !Ended(b) {
      assert CStr(b)[0] == b[0];
    }
  }

  /** Equal first characters leave the comparison to the rest. */
  lemma DelEqualStep(a: string, b: string, del: Option<string>)
    requires !Ended(a) && !Ended(b) && a[0] == b[0]
    ensures DelEqual(a, b, del) <==> DelEqual(a[1..], b[1..], del)
  {
    var x, y := CStr(a[1..]), CStr(b[1..]);
    assert CStr(a) == [a[0]] + x;
    assert CStr(b) == [b[0]] + y;
    assert ([a[0]] + x == [b[0]] + y) <==> x == y;
    if |x| < |y| {
      assert ([b[0]] + y)[..|x| + 1] == [b[0]] + y[..|x|];
    }
  }

  /** A byte from 0x80 on compares below ASCII: e-acute (0xE9, -23 as a
      signed char) against 'a' (97) gives -120. */
  lemma DelCompareHighByte()
    ensures DelCompare("\U{E9}", "a", None) == -120
    ensures DelCompare("ab\U{E9}", "ab", Some(" ")) == -23
  {
    assert DelCompare("ab\U{E9}", "ab", Some(" ")) == DelCompare("\U{E9}", "", Some(" "));
  }

  /** Without delimiters yaz_strcmp_del is antisymmetric, like strcmp. */
  lemma {:induction false} DelCompareAntisymmetric(a: string, b: string)
    ensures DelCompare(a, b, None) == -DelCompare(b, a, None)
    decreases |a|
  {
    if !Ended(a) && !Ended(b) && a[0] == b[0] {
      DelCompareAntisymmetric(a[1..], b[1..]);
    }
  }

  // ---- yaz_memcmp ----

  /** memcmp over two runs of equal length: the difference of the first
      differing bytes, 0 when there is none. */
  function MemCmp(a: string, b: string): int
    requires |a| == |b|
  {
    if |a| == 0 then 0
    else if a[0] != b[0] then a[0] as int - b[0] as int
    else MemCmp(a[1..], b[1..])
  }

  /** yaz_memcmp(a, b, len_a, len_b) for a of length len_a and b of length len_b. */
  function YazMemCmp(a: string, b: string): int {
    var m := if |a| < |b| then |a| else |b|;
    var r := MemCmp(a[..m], b[..m]);
    if r != 0 then r else |a| - |b|
  }

  lemma {:induction false} MemCmpZeroIff(a: string, b: string)
    requires |a| == |b|
    ensures MemCmp(a, b) == 0 <==> a == b
    ensures MemCmp(a, b) == -MemCmp(b, a)
  {
    if |a| > 0 && a[0] == b[0] {
      MemCmpZeroIff(a[1..], b[1..]);
      if a[1..] == b[1..] {
        assert a == [a[0]] + a[1..] && b == [b[0]] + b[1..];
      }
    }
  }

  /** yaz_memcmp is 0 exactly for equal byte runs; it is antisymmetric; and
      when one run is a prefix of the other its sign is that of
      len_a - len_b. */
  lemma YazMemCmpProperties(a: string, b: string)
    ensures YazMemCmp(a, b) == 0 <==> a == b
    ensures YazMemCmp(a, b) == -YazMemCmp(b, a)
    ensures |a| <= |b| && a == b[..|a|] ==> YazMemCmp(a, b) == |a| - |b|
    ensures |b| <= |a| && b == a[..|b|] ==> YazMemCmp(a, b) == |a| - |b|
  {
    var m := if |a| < |b| then |a| else |b|;
    MemCmpZeroIff(a[..m], b[..m]);
    if |a| == |b| {
      assert a[..m] == a && b[..m] == b;
    }
  }
}
