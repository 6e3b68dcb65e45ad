/**
 * Base64 as defined in section 4 of RFC 4648, the encoding the accept key
 * uses: three octets become four characters of the 64-character alphabet,
 * and a final group of one or two octets is padded with '='.
 */
module Base64 {
  import opened Wrappers

  /** The character for a 6-bit value, per Table 1 of RFC 4648. */
  function Digit(i: int): (c: char)
    requires 0 <= i < 64
    ensures IsDigitChar(c)
  {
    if i < 26 then (('A' as int) + i) as char
    else if i < 52 then (('a' as int) + i - 26) as char
    else if i < 62 then (('0' as int) + i - 52) as char
    else if i == 62 then '+'
    else '/'
  }

  /** `c` belongs to the alphabet of Table 1. */
  predicate IsDigitChar(c: char)
  {
    ('A' <= c <= 'Z') || ('a' <= c <= 'z') || ('0' <= c <= '9') || c == '+' || c == '/'
  }

  /** The 6-bit value of an alphabet character; `None` for any other. */
  function ValueOf(c: char): (r: Option<int>)
    ensures r.Some? ==> 0 <= r.value < 64 && Digit(r.value) == c
    ensures r.Some? <==> IsDigitChar(c)
  {
    if 'A' <= c <= 'Z' then Some(c as int - 'A' as int)
    else if 'a' <= c <= 'z' then Some(c as int - 'a' as int + 26)
    else if '0' <= c <= '9' then Some(c as int - '0' as int + 52)
    else if c == '+' then Some(62)
    else if c == '/' then Some(63)
    else None
  }

  /** Every 6-bit value is recovered from its character. */
  lemma ValueOfDigit(i: int)
    requires 0 <= i < 64
    ensures ValueOf(Digit(i)) == Some(i)
  {
  }

  /** Four characters for a group of one to three octets, padded with '='. */
  function EncodeGroup(g: seq<byte>): (r: string)
    requires 1 <= |g| <= 3
    ensures |r| == 4
  {
    if |g| == 1 then
      [Digit(g[0] / 4), Digit(g[0] % 4 * 16), '=', '=']
    else if |g| == 2 then
      [Digit(g[0] / 4), Digit(g[0] % 4 * 16 + g[1] / 16), Digit(g[1] % 16 * 4), '=']
    else
      var d := Sextets(g[0], g[1], g[2]);
      [Digit(d.0), Digit(d.1), Digit(d.2), Digit(d.3)]
  }

  /** The encoding of the octets from `k` on, four characters per started group. */
  function EncodeFrom(b: seq<byte>, k: nat): (r: string)
    requires k <= |b|
    decreases |b| - k
    ensures |r| == (|b| - k + 2) / 3 * 4
  {
    if k == |b| then []
    else if |b| - k <= 3 then EncodeGroup(b[k..])
    else EncodeGroup(b[k..k + 3]) + EncodeFrom(b, k + 3)
  }

  /** Encoding with padding: `4 * ceil(n / 3)` characters for `n` octets. */
  function Encode(b: seq<byte>): (r: string)
    ensures |r| == (|b| + 2) / 3 * 4
  {
    EncodeFrom(b, 0)
  }

  /** Every encoded character is in the alphabet or is the pad character. */
  lemma {:induction false} EncodeAlphabet(b: seq<byte>, k: nat)
    requires k <= |b|
    decreases |b| - k
    ensures forall i :: 0 <= i < |EncodeFrom(b, k)| ==> IsDigitChar(EncodeFrom(b, k)[i]) || EncodeFrom(b, k)[i] == '='
  {
    if |b| - k > 3 {
      EncodeAlphabet(b, k + 3);
      var head, tail := EncodeGroup(b[k..k + 3]), EncodeFrom(b, k + 3);
      assert forall i :: 4 <= i < |EncodeFrom(b, k)| ==> EncodeFrom(b, k)[i] == tail[i - 4];
    }
  }

  /** The octets of one group of four 6-bit values. */
  function Octets(d0: int, d1: int, d2: int, d3: int): (r: seq<byte>)
    requires 0 <= d0 < 64 && 0 <= d1 < 64 && 0 <= d2 < 64 && 0 <= d3 < 64
    ensures |r| == 3
  {
    [d0 * 4 + d1 / 16, d1 % 16 * 16 + d2 / 4, d2 % 4 * 64 + d3]
  }

  /**
   * One group of four characters: alphabet characters, except that the last
   * group of a string may end in "==" (one octet) or "=" (two octets).  The
   * bits a padded group does not use must be zero, as section 3.5 of
   * RFC 4648 allows a decoder to demand, so every octet string has exactly
   * one accepted form.
   */
  function DecodeGroup(c0: char, c1: char, c2: char, c3: char, last: bool): (r: Option<seq<byte>>)
    ensures r.Some? ==> 1 <= |r.value| <= 3 && (|r.value| < 3 ==> last)
  {
    var v0, v1, v2, v3 := ValueOf(c0), ValueOf(c1), ValueOf(c2), ValueOf(c3);
    if v0.None? || v1.None? then None
    else if c2 == '=' && c3 == '=' then
      if last && v1.value % 16 == 0 then Some(Octets(v0.value, v1.value, 0, 0)[..1]) else None
    else if v2.None? then None
    else if c3 == '=' then
      if last && v2.value % 4 == 0 then Some(Octets(v0.value, v1.value, v2.value, 0)[..2]) else None
    else if v3.None? then None
    else Some(Octets(v0.value, v1.value, v2.value, v3.value))
  }

  /** Decoding a string of whole groups; anything else is rejected. */
  function Decode(s: string): (r: Option<seq<byte>>)
    ensures r.Some? ==> |r.value| <= |s|
    ensures r.Some? && s != [] ==> r.value != []
  {
    if |s| == 0 then Some([])
    else if |s| < 4 then None
    else
      match DecodeGroup(s[0], s[1], s[2], s[3], |s| == 4)
      case None => None
      case Some(g) =>
        if |s| == 4 then Some(g)
        else
          match Decode(s[4..])
          case None => None
          case Some(rest) => Some(g + rest)
  }

  /** Splitting a value into 4 high and 2 low bits, or 2 high and 4 low, or 2 high and 6 low. */
  lemma Split(hi: int, lo: int, base: int)
    requires base == 4 || base == 16 || base == 64
    requires 0 <= lo < base
    ensures (hi * base + lo) / base == hi && (hi * base + lo) % base == lo
  {
  }

  /** Decoding the characters of one full group gives back its three octets. */
  lemma GroupRoundTrip(b0: byte, b1: byte, b2: byte)
    ensures var d := Sextets(b0, b1, b2); Octets(d.0, d.1, d.2, d.3) == [b0, b1, b2]
  {
    Split(b0 % 4, b1 / 16, 16);
    Split(b1 % 16, b2 / 64, 4);
  }

  /** A full group of alphabet characters decodes to its three octets followed by the rest. */
  lemma DecodeFullGroup(s: string, d0: int, d1: int, d2: int, d3: int)
    requires |s| >= 4 && 0 <= d0 < 64 && 0 <= d1 < 64 && 0 <= d2 < 64 && 0 <= d3 < 64
    requires s[..4] == [Digit(d0), Digit(d1), Digit(d2), Digit(d3)]
    ensures Decode(s) == match Decode(s[4..])
      case None => None
      case Some(rest) => Some(Octets(d0, d1, d2, d3) + rest)
  {
    assert s[0] == Digit(d0) && s[1] == Digit(d1) && s[2] == Digit(d2) && s[3] == Digit(d3);
    ValueOfDigit(d0);
    ValueOfDigit(d1);
    ValueOfDigit(d2);
    ValueOfDigit(d3);
    assert DecodeGroup(s[0], s[1], s[2], s[3], |s| == 4) == Some(Octets(d0, d1, d2, d3));
    if |s| == 4 {
      assert s[4..] == [];
      assert Octets(d0, d1, d2, d3) + [] == Octets(d0, d1, d2, d3);
    }
  }

  /** A final group of one octet round-trips. */
  lemma RoundTripOne(b0: byte)
    ensures Decode(EncodeGroup([b0])) == Some([b0])
  {
    var e := EncodeGroup([b0]);
    ValueOfDigit(b0 / 4);
    ValueOfDigit(b0 % 4 * 16);
    GroupRoundTrip(b0, 0, 0);
    var o := Octets(b0 / 4, b0 % 4 * 16, 0, 0);
    assert o == [b0, 0, 0];
    assert Decode(e) == Some(o[..1]);
    assert o[..1] == [b0];
  }

  /** A final group of two octets round-trips. */
  lemma RoundTripTwo(b0: byte, b1: byte)
    ensures Decode(EncodeGroup([b0, b1])) == Some([b0, b1])
  {
    var e := EncodeGroup([b0, b1]);
    ValueOfDigit(b0 / 4);
    ValueOfDigit(b0 % 4 * 16 + b1 / 16);
    ValueOfDigit(b1 % 16 * 4);
    GroupRoundTrip(b0, b1, 0);
    var o := Octets(b0 / 4, b0 % 4 * 16 + b1 / 16, b1 % 16 * 4, 0);
    assert o == [b0, b1, 0];
    assert Decode(e) == Some(o[..2]);
    assert o[..2] == [b0, b1];
  }

  /** The four 6-bit values of a full group of three octets. */
  function Sextets(b0: byte, b1: byte, b2: byte): (d: (int, int, int, int))
    ensures 0 <= d.0 < 64 && 0 <= d.1 < 64 && 0 <= d.2 < 64 && 0 <= d.3 < 64
  {
    (b0 / 4, b0 % 4 * 16 + b1 / 16, b1 % 16 * 4 + b2 / 64, b2 % 64)
  }

  /** From a position with at least three octets left, the encoding starts with that group. */
  lemma EncodeFromFull(b: seq<byte>, k: nat)
    requires k + 3 <= |b|
    ensures EncodeFrom(b, k) == EncodeGroup(b[k..k + 3]) + EncodeFrom(b, k + 3)
  {
    if k + 3 == |b| {
      assert b[k..] == b[k..k + 3];
    }
  }

  /** A full group in front of a decodable string decodes to its octets in front. */
  lemma DecodeGroupThen(g: seq<byte>, rest: string, tail: seq<byte>)
    requires |g| == 3 && Decode(rest) == Some(tail)
    ensures Decode(EncodeGroup(g) + rest) == Some(g + tail)
  {
    var d := Sextets(g[0], g[1], g[2]);
    var e := EncodeGroup(g) + rest;
    assert EncodeGroup(g) == [Digit(d.0), Digit(d.1), Digit(d.2), Digit(d.3)];
    assert e[..4] == EncodeGroup(g) && e[4..] == rest;
    DecodeFullGroup(e, d.0, d.1, d.2, d.3);
    GroupRoundTrip(g[0], g[1], g[2]);
    assert g == [g[0], g[1], g[2]];
  }

  /** Decoding inverts encoding from any group boundary `k` on. */
  lemma {:induction false} RoundTripFrom(b: seq<byte>, k: nat)
    requires k <= |b|
    decreases |b| - k
    ensures Decode(EncodeFrom(b, k)) == Some(b[k..])
  {
    var n := |b| - k;
    if n == 1 {
      assert b[k..] == [b[k]];
      RoundTripOne(b[k]);
    } else if n == 2 {
      assert b[k..] == [b[k], b[k + 1]];
      RoundTripTwo(b[k], b[k + 1]);
    } else if n >= 3 {
      EncodeFromFull(b, k);
      RoundTripFrom(b, k + 3);
      DecodeGroupThen(b[k..k + 3], EncodeFrom(b, k + 3), b[k + 3..]);
      assert b[k..k + 3] + b[k + 3..] == b[k..];
    }
  }

  /** Decoding inverts encoding: every octet string is recovered from its Base64 form. */
  lemma RoundTrip(b: seq<byte>)
    ensures Decode(Encode(b)) == Some(b)
  {
    RoundTripFrom(b, 0);
    assert b[0..] == b;
  }

  /** A full group whose 6-bit values are known encodes as their characters. */
  lemma GroupText(g: seq<byte>, d0: int, d1: int, d2: int, d3: int)
    requires |g| == 3 && 0 <= d0 < 64 && 0 <= d1 < 64 && 0 <= d2 < 64 && 0 <= d3 < 64
    requires Sextets(g[0], g[1], g[2]) == (d0, d1, d2, d3)
    ensures EncodeGroup(g) == [Digit(d0), Digit(d1), Digit(d2), Digit(d3)]
  {
  }

  /** The octets of a group, split again, give back its four 6-bit values. */
  lemma SextetsOfOctets(d0: int, d1: int, d2: int, d3: int)
    requires 0 <= d0 < 64 && 0 <= d1 < 64 && 0 <= d2 < 64 && 0 <= d3 < 64
    ensures var o := Octets(d0, d1, d2, d3); Sextets(o[0], o[1], o[2]) == (d0, d1, d2, d3)
  {
    Split(d0, d1 / 16, 4);
    Split(d1 % 16, d2 / 4, 16);
    Split(d2 % 4, d3, 64);
  }

  /** An accepted group is the encoding of the octets it decodes to. */
  lemma GroupCanonical(c0: char, c1: char, c2: char, c3: char, last: bool, g: seq<byte>)
    requires DecodeGroup(c0, c1, c2, c3, last) == Some(g)
    ensures EncodeGroup(g) == [c0, c1, c2, c3]
  {
    var v0, v1, v2, v3 := ValueOf(c0), ValueOf(c1), ValueOf(c2), ValueOf(c3);
    if c2 == '=' && c3 == '=' {
      var d0, d1 := v0.value, v1.value;
      SextetsOfOctets(d0, d1, 0, 0);
      assert g[0] / 4 == d0 && g[0] % 4 * 16 == d1;
    } else if c3 == '=' {
      var d0, d1, d2 := v0.value, v1.value, v2.value;
      SextetsOfOctets(d0, d1, d2, 0);
      assert g[0] / 4 == d0 && g[0] % 4 * 16 + g[1] / 16 == d1 && g[1] % 16 * 4 == d2;
    } else {
      SextetsOfOctets(v0.value, v1.value, v2.value, v3.value);
    }
  }

  /** Encoding after a prefix of octets, counted from the prefix's end. */
  lemma {:induction false} EncodeShift(p: seq<byte>, b: seq<byte>, k: nat)
    requires k <= |b|
    decreases |b| - k
    ensures EncodeFrom(p + b, |p| + k) == EncodeFrom(b, k)
  {
    var pb := p + b;
    var j := |p| + k;
    assert |pb| - j == |b| - k;
    if |b| - k > 3 {
      assert pb[j..j + 3] == b[k..k + 3];
      EncodeShift(p, b, k + 3);
      assert EncodeFrom(pb, j) == EncodeGroup(pb[j..j + 3]) + EncodeFrom(pb, j + 3);
    } else if k < |b| {
      assert pb[j..] == b[k..];
      assert EncodeFrom(pb, j) == EncodeGroup(pb[j..]);
    } else {
      assert j == |pb|;
      assert EncodeFrom(pb, j) == [];
    }
  }

  /** A decoded string starts with one accepted group, followed by a decoded remainder unless it is the last. */
  lemma DecodeFirst(s: string, b: seq<byte>)
    requires s != [] && Decode(s) == Some(b)
    ensures |s| >= 4 && DecodeGroup(s[0], s[1], s[2], s[3], |s| == 4).Some?
    ensures var g := DecodeGroup(s[0], s[1], s[2], s[3], |s| == 4).value;
      if |s| == 4 then b == g
      else |g| == 3 && Decode(s[4..]).Some? && b == g + Decode(s[4..]).value
  {
  }

  /** One encoded group followed by the encoding of the rest. */
  lemma EncodeThen(g: seq<byte>, rest: seq<byte>)
    requires |g| == 3 && rest != []
    ensures Encode(g + rest) == EncodeGroup(g) + Encode(rest)
  {
    var b := g + rest;
    assert b[0..3] == g;
    EncodeFromFull(b, 0);
    EncodeShift(g, rest, 0);
  }

  /** A lone accepted group is the encoding of its octets. */
  lemma CanonicalLast(s: string, b: seq<byte>)
    requires |s| == 4 && Decode(s) == Some(b)
    ensures s == Encode(b)
  {
    DecodeFirst(s, b);
    GroupCanonical(s[0], s[1], s[2], s[3], true, b);
    assert b[0..] == b;
    assert s == [s[0], s[1], s[2], s[3]];
  }

  /** An accepted group in front of an encoding is the encoding of the joined octets. */
  lemma CanonicalStep(s: string, b: seq<byte>, rest: seq<byte>)
    requires |s| > 4 && Decode(s) == Some(b)
    requires Decode(s[4..]) == Some(rest) && s[4..] == Encode(rest)
    ensures s == Encode(b)
  {
    DecodeFirst(s, b);
    var g := DecodeGroup(s[0], s[1], s[2], s[3], false).value;
    GroupCanonical(s[0], s[1], s[2], s[3], false, g);
    EncodeThen(g, rest);
    assert s == [s[0], s[1], s[2], s[3]] + s[4..];
  }

  /** The only text that decodes to an octet string is that string's encoding. */
  lemma {:induction false} Canonical(s: string, b: seq<byte>)
    requires Decode(s) == Some(b)
    decreases |s|
    ensures s == Encode(b)
  {
    if |s| == 4 {
      CanonicalLast(s, b);
    } else if s != [] {
      DecodeFirst(s, b);
      var rest := Decode(s[4..]).value;
      Canonical(s[4..], rest);
      CanonicalStep(s, b, rest);
    }
  }
}
