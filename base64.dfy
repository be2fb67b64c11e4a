/** Base 64 encoding as section 4 of RFC 4648 defines it: every three octets
    become four characters of the alphabet A-Z, a-z, 0-9, `+`, `/`, and a
    final group of one or two octets is padded with `=`. This is what
    yaz_base64encode produces for the Basic authorisation header. */
module Base64 {
  import opened Wrappers

  /** Characters that stand for octets (the C code works on `char`). */
  predicate IsOctets(s: string) {
    forall k :: 0 <= k < |s| ==> s[k] as int < 256
  }

  /** The alphabet character for a 6-bit value (Table 1 of RFC 4648). */
  function Sextet(v: nat): (c: char)
    requires v < 64
    ensures c != '=' && c != '\0' && c as int < 128
  {
    if v < 26 then ('A' as int + v) as char
    else if v < 52 then ('a' as int + v - 26) as char
    else if v < 62 then ('0' as int + v - 52) as char
    else if v == 62 then '+'
    else '/'
  }

  /** The 6-bit value of an alphabet character, None for any other character. */
  function SextetValue(c: char): (r: Option<nat>)
    ensures r.Some? ==> r.value < 64 && Sextet(r.value) == c
  {
    if 'A' <= c <= 'Z' then Some(c as int - 'A' as int)
    else if 'a' <= c <= 'z' then Some(c as int - 'a' as int + 26)
    else if '0' <= c <= '9' then Some(c as int - '0' as int + 52)
    else if c == '+' then Some(62)
    else if c == '/' then Some(63)
    else None
  }

  lemma SextetRoundTrip(v: nat)
    requires v < 64
    ensures SextetValue(Sextet(v)) == Some(v)
  {
  }

  function Octet(n: nat): char
    requires n < 256
  {
    n as char
  }

  /** The octet a character holds; characters stand for octets, so this is
      the character's code when IsOctets holds. */
  function OctetValue(c: char): (n: nat)
    ensures n < 256
  {
    c as int % 256
  }

  /** The four characters of a full group of three octets. */
  function Group(a: nat, b: nat, c: nat): (r: string)
    requires a < 256 && b < 256 && c < 256
    ensures |r| == 4 && forall k :: 0 <= k < 4 ==> r[k] != '=' && r[k] != '\0'
  {
    [Sextet(a / 4), Sextet(a % 4 * 16 + b / 16), Sextet(b % 16 * 4 + c / 64), Sextet(c % 64)]
  }

  /** The final group of one octet, padded with two `=`. */
  function Group1(a: nat): (r: string)
    requires a < 256
    ensures |r| == 4 && forall k :: 0 <= k < 4 ==> r[k] != '\0'
  {
    [Sextet(a / 4), Sextet(a % 4 * 16), '=', '=']
  }

  /** The final group of two octets, padded with one `=`. */
  function Group2(a: nat, b: nat): (r: string)
    requires a < 256 && b < 256
    ensures |r| == 4 && forall k :: 0 <= k < 4 ==> r[k] != '\0'
  {
    [Sextet(a / 4), Sextet(a % 4 * 16 + b / 16), Sextet(b % 16 * 4), '=']
  }

  /** The encoding of an octet string. */
  function Encode(s: string): string {
    if |s| == 0 then []
    else if |s| == 1 then Group1(OctetValue(s[0]))
    else if |s| == 2 then Group2(OctetValue(s[0]), OctetValue(s[1]))
    else Group(OctetValue(s[0]), OctetValue(s[1]), OctetValue(s[2])) + Encode(s[3..])
  }

  /** Four characters for every started group of three octets, and never a
      NUL, so the encoding is a whole C string. */
  lemma {:induction false} EncodeShape(s: string)
    ensures |Encode(s)| == 4 * ((|s| + 2) / 3)
    ensures forall k :: 0 <= k < |Encode(s)| ==> Encode(s)[k] != '\0'
    decreases |s|
  {
    if |s| >= 3 {
      var g := Group(OctetValue(s[0]), OctetValue(s[1]), OctetValue(s[2]));
      var rest := Encode(s[3..]);
      EncodeShape(s[3..]);
      assert Encode(s) == g + rest;
      assert (|s| + 2) / 3 == (|s[3..]| + 2) / 3 + 1;
      forall k | 0 <= k < |g + rest|
        ensures (g + rest)[k] != '\0'
      {
        if k >= 4 {
          assert (g + rest)[k] == rest[k - 4];
        }
      }
    }
  }

  /** The inverse of Encode: None for text that is not a padded encoding. */
  function Decode(t: string): (r: Option<string>)
    decreases |t|
  {
    if |t| == 0 then Some([])
    else if |t| < 4 then None
    else
      var v0, v1 := SextetValue(t[0]), SextetValue(t[1]);
      if v0.None? || v1.None? then None
      else
        var a := Octet(v0.value * 4 + v1.value / 16);
        if t[2] == '=' && t[3] == '=' then
          if |t| == 4 then Some([a]) else None
        else
          var v2 := SextetValue(t[2]);
          if v2.None? then None
          else
            var b := Octet(v1.value % 16 * 16 + v2.value / 4);
            if t[3] == '=' then
              if |t| == 4 then Some([a, b]) else None
            else
              var v3 := SextetValue(t[3]);
              if v3.None? then None
              else
                var c := Octet(v2.value % 4 * 64 + v3.value);
                match Decode(t[4..])
                case None => None
                case Some(rest) => Some([a, b, c] + rest)
  }

  lemma DecodeGroup1(a: nat)
    requires a < 256
    ensures Decode(Group1(a)) == Some([Octet(a)])
  {
    SextetRoundTrip(a / 4);
    SextetRoundTrip(a % 4 * 16);
  }

  lemma DecodeGroup2(a: nat, b: nat)
    requires a < 256 && b < 256
    ensures Decode(Group2(a, b)) == Some([Octet(a), Octet(b)])
  {
    var t := Group2(a, b);
    SextetRoundTrip(a / 4);
    SextetRoundTrip(a % 4 * 16 + b / 16);
    SextetRoundTrip(b % 16 * 4);
    assert (a / 4) * 4 + (a % 4 * 16 + b / 16) / 16 == a by {
      assert (a % 4 * 16 + b / 16) / 16 == a % 4;
    }
    assert (a % 4 * 16 + b / 16) % 16 * 16 + (b % 16 * 4) / 4 == b by {
      assert (a % 4 * 16 + b / 16) % 16 == b / 16;
    }
    assert t[2] != '=' && t[3] == '=' && |t| == 4;
  }

  /** The arithmetic of a full group: the octets come back from the sextets. */
  lemma GroupArithmetic(a: nat, b: nat, c: nat)
    requires a < 256 && b < 256 && c < 256
    ensures (a / 4) * 4 + (a % 4 * 16 + b / 16) / 16 == a
    ensures (a % 4 * 16 + b / 16) % 16 * 16 + (b % 16 * 4 + c / 64) / 4 == b
    ensures (b % 16 * 4 + c / 64) % 4 * 64 + c % 64 == c
  {
    assert (a % 4 * 16 + b / 16) / 16 == a % 4;
    assert (a % 4 * 16 + b / 16) % 16 == b / 16;
    assert (b % 16 * 4 + c / 64) / 4 == b % 16;
    assert (b % 16 * 4 + c / 64) % 4 == c / 64;
  }

  lemma DecodeGroup(a: nat, b: nat, c: nat, rest: string)
    requires a < 256 && b < 256 && c < 256
    ensures Decode(Group(a, b, c) + rest) ==
      match Decode(rest)
      case None => None
      case Some(r) => Some([Octet(a), Octet(b), Octet(c)] + r)
  {
    var t := Group(a, b, c) + rest;
    GroupArithmetic(a, b, c);
    SextetRoundTrip(a / 4);
    SextetRoundTrip(a % 4 * 16 + b / 16);
    SextetRoundTrip(b % 16 * 4 + c / 64);
    SextetRoundTrip(c % 64);
    assert t[0] == Sextet(a / 4) && t[1] == Sextet(a % 4 * 16 + b / 16);
    assert t[2] == Sextet(b % 16 * 4 + c / 64) && t[3] == Sextet(c % 64);
    assert t[4..] == rest;
  }

  /** Decoding an encoding gives the octets back. */
  lemma {:induction false} DecodeEncode(s: string)
    requires IsOctets(s)
    ensures Decode(Encode(s)) == Some(s)
    decreases |s|
  {
    if |s| == 0 {
      return;
    }
    assert Octet(OctetValue(s[0])) == s[0];
    if |s| == 1 {
      DecodeGroup1(OctetValue(s[0]));
      assert [s[0]] == s;
      return;
    }
    assert Octet(OctetValue(s[1])) == s[1];
    if |s| == 2 {
      DecodeGroup2(OctetValue(s[0]), OctetValue(s[1]));
      assert [s[0], s[1]] == s;
    } else {
      assert Octet(OctetValue(s[2])) == s[2];
      DecodeGroup(OctetValue(s[0]), OctetValue(s[1]), OctetValue(s[2]), Encode(s[3..]));
      DecodeEncode(s[3..]);
      assert [s[0], s[1], s[2]] + s[3..] == s;
    }
  }

  /** Encoding works group by group: a prefix of whole groups is encoded on
      its own. */
  lemma {:induction false} EncodeConcat(x: string, y: string)
    requires |x| % 3 == 0
    ensures Encode(x + y) == Encode(x) + Encode(y)
    decreases |x|
  {
    var xy := x + y;
    if |x| > 0 {
      assert xy[..3] == x[..3] && xy[3..] == x[3..] + y;
      EncodeConcat(x[3..], y);
    } else {
      assert xy == y;
    }
  }

  /** The test vectors of section 10 of RFC 4648. */
  lemma Rfc4648ShortVectors()
    ensures Encode("") == ""
    ensures Encode("f") == "Zg=="
    ensures Encode("fo") == "Zm8="
    ensures Encode("foo") == "Zm9v"
  {
  }

  /** The longer test vectors of section 10 of RFC 4648, group by group. */
  lemma Rfc4648LongVectors()
    ensures Encode("foob") == "Zm9vYg=="
    ensures Encode("fooba") == "Zm9vYmE="
    ensures Encode("foobar") == "Zm9vYmFy"
  {
    Rfc4648ShortVectors();
    EncodeConcat("foo", "b");
    assert "foo" + "b" == "foob";
    EncodeConcat("foo", "ba");
    assert "foo" + "ba" == "fooba";
    EncodeConcat("foo", "bar");
    assert "foo" + "bar" == "foobar";
  }
}
