/**
 * The server's accept key, section 4.2.2 of RFC 6455: the 24-character
 * Sec-WebSocket-Key followed by the protocol GUID is hashed with SHA-1 and
 * the 20-byte digest is written in Base64, NUL-terminated.
 *
 * SHA-1 itself (FIPS 180-4) is not modelled: it is a parameter, any function
 * from byte strings to 20-byte digests.
 */
module AcceptKey {
  import opened Wrappers
  import Base64

  /** The fixed GUID of section 1.3 of RFC 6455, "258EAFA5-E914-47DA-95CA-C5AB0DC85B11" in ASCII. */
  const Guid: seq<byte> := [
    0x32, 0x35, 0x38, 0x45, 0x41, 0x46, 0x41, 0x35, 0x2d, 0x45, 0x39, 0x31,
    0x34, 0x2d, 0x34, 0x37, 0x44, 0x41, 0x2d, 0x39, 0x35, 0x43, 0x41, 0x2d,
    0x43, 0x35, 0x41, 0x42, 0x30, 0x44, 0x43, 0x38, 0x35, 0x42, 0x31, 0x31]

  /** A SHA-1 digest. */
  type Digest = d: seq<byte> | |d| == 20 witness seq(20, _ => 0)

  /** The bytes the hash is taken over: the key, then the GUID. */
  function KeySource(key: seq<byte>): (r: seq<byte>)
    requires |key| == 24
    ensures |r| == 60 && r[..24] == key && r[24..] == Guid
  {
    key + Guid
  }

  /**
   * `create_accept_key`: the 29-byte destination holds the Base64 form of the
   * digest of `KeySource(key)` in its first 28 characters and a NUL after it.
   */
  function CreateAcceptKey(sha1: seq<byte> -> Digest, key: seq<byte>): (dst: string)
    requires |key| == 24
    ensures |dst| == 29 && dst[28] == '\0'
    ensures forall i :: 0 <= i < 28 ==> Base64.IsDigitChar(dst[i]) || dst[i] == '='
    ensures Base64.Decode(dst[..28]) == Option<seq<byte>>.Some(sha1(KeySource(key)))
  {
    var digest: seq<byte> := sha1(KeySource(key));
    var encoded := Base64.Encode(digest);
    assert |encoded| == 28 by { assert |digest| == 20; }
    assert (encoded + ['\0'])[..28] == encoded;
    Base64.RoundTrip(digest);
    Base64.EncodeAlphabet(digest, 0);
    encoded + ['\0']
  }

  /**
   * The accept key is the one text a client can compare against: any
   * text the decoder accepts as the digest is exactly the first 28
   * characters `create_accept_key` writes.
   */
  lemma AcceptKeyUnique(sha1: seq<byte> -> Digest, key: seq<byte>, text: string)
    requires |key| == 24
    requires Base64.Decode(text) == Option<seq<byte>>.Some(sha1(KeySource(key)))
    ensures text == CreateAcceptKey(sha1, key)[..28]
  {
    Base64.Canonical(text, sha1(KeySource(key)));
    Base64.Canonical(CreateAcceptKey(sha1, key)[..28], sha1(KeySource(key)));
  }

  /**
   * `d` is the SHA-1 digest of the sample handshake of section 1.3 of
   * RFC 6455, b37a4f2cc0624f1690f64606cf385945b2bec4ea.
   */
  predicate IsSampleDigest(d: seq<byte>)
  {
    |d| == 20
    && d[0] == 0xb3 && d[1] == 0x7a && d[2] == 0x4f && d[3] == 0x2c && d[4] == 0xc0
    && d[5] == 0x62 && d[6] == 0x4f && d[7] == 0x16 && d[8] == 0x90 && d[9] == 0xf6
    && d[10] == 0x46 && d[11] == 0x06 && d[12] == 0xcf && d[13] == 0x38 && d[14] == 0x59
    && d[15] == 0x45 && d[16] == 0xb2 && d[17] == 0xbe && d[18] == 0xc4 && d[19] == 0xea
  }

  /**
   * The worked example of section 1.3 of RFC 6455: for the key
   * "dGhlIHNhbXBsZSBub25jZQ==", whose key source hashes to the sample digest,
   * the accept key is "s3pPLMBiTxaQ9kYGzzhZRbK+xOo=".
   */
  lemma SampleHandshake(sha1: seq<byte> -> Digest, key: seq<byte>)
    requires key == Bytes("dGhlIHNhbXBsZSBub25jZQ==")
    requires IsSampleDigest(sha1(KeySource(key)))
    ensures CreateAcceptKey(sha1, key) == ("s3pP" + ("LMBi" + ("TxaQ" + ("9kYG" + ("zzhZ" + ("RbK+" + "xOo=")))))) + "\0"
  {
    SampleEncoding(sha1(KeySource(key)));
  }

  /** Prepending a full group whose 6-bit values are known prepends their characters. */
  lemma EncodeStep(d: seq<byte>, k: nat, tail: string, d0: int, d1: int, d2: int, d3: int)
    requires k + 3 <= |d| && Base64.EncodeFrom(d, k + 3) == tail
    requires 0 <= d0 < 64 && 0 <= d1 < 64 && 0 <= d2 < 64 && 0 <= d3 < 64
    requires Base64.Sextets(d[k], d[k + 1], d[k + 2]) == (d0, d1, d2, d3)
    ensures Base64.EncodeFrom(d, k) == [Base64.Digit(d0), Base64.Digit(d1), Base64.Digit(d2), Base64.Digit(d3)] + tail
  {
    Base64.EncodeFromFull(d, k);
    Base64.GroupText(d[k..k + 3], d0, d1, d2, d3);
  }

  /** The last two octets of the sample digest encode as "xOo=". */
  lemma SampleFrom18(d: seq<byte>)
    requires IsSampleDigest(d)
    ensures Base64.EncodeFrom(d, 18) == "xOo="
  {
    assert Base64.EncodeFrom(d, 18) == Base64.EncodeGroup(d[18..]);
    assert Base64.Digit(49) == 'x' && Base64.Digit(14) == 'O' && Base64.Digit(40) == 'o';
  }

  /** The octets of the sample digest from index 15 on, group by group. */
  lemma SampleFrom15(d: seq<byte>)
    requires IsSampleDigest(d)
    ensures Base64.EncodeFrom(d, 15) == "RbK+" + "xOo="
  {
    SampleFrom18(d);
    EncodeStep(d, 15, "xOo=", 17, 27, 10, 62);
    assert [Base64.Digit(17), Base64.Digit(27), Base64.Digit(10), Base64.Digit(62)] == "RbK+";
  }

  /** The octets of the sample digest from index 12 on, group by group. */
  lemma SampleFrom12(d: seq<byte>)
    requires IsSampleDigest(d)
    ensures Base64.EncodeFrom(d, 12) == "zzhZ" + ("RbK+" + "xOo=")
  {
    SampleFrom15(d);
    EncodeStep(d, 12, "RbK+" + "xOo=", 51, 51, 33, 25);
    assert [Base64.Digit(51), Base64.Digit(51), Base64.Digit(33), Base64.Digit(25)] == "zzhZ";
  }

  /** The octets of the sample digest from index 9 on, group by group. */
  lemma SampleFrom9(d: seq<byte>)
    requires IsSampleDigest(d)
    ensures Base64.EncodeFrom(d, 9) == "9kYG" + ("zzhZ" + ("RbK+" + "xOo="))
  {
    SampleFrom12(d);
    EncodeStep(d, 9, "zzhZ" + ("RbK+" + "xOo="), 61, 36, 24, 6);
    assert [Base64.Digit(61), Base64.Digit(36), Base64.Digit(24), Base64.Digit(6)] == "9kYG";
  }

  /** The octets of the sample digest from index 6 on, group by group. */
  lemma SampleFrom6(d: seq<byte>)
    requires IsSampleDigest(d)
    ensures Base64.EncodeFrom(d, 6) == "TxaQ" + ("9kYG" + ("zzhZ" + ("RbK+" + "xOo=")))
  {
    SampleFrom9(d);
    EncodeStep(d, 6, "9kYG" + ("zzhZ" + ("RbK+" + "xOo=")), 19, 49, 26, 16);
    assert [Base64.Digit(19), Base64.Digit(49), Base64.Digit(26), Base64.Digit(16)] == "TxaQ";
  }

  /** The octets of the sample digest from index 3 on, group by group. */
  lemma SampleFrom3(d: seq<byte>)
    requires IsSampleDigest(d)
    ensures Base64.EncodeFrom(d, 3) == "LMBi" + ("TxaQ" + ("9kYG" + ("zzhZ" + ("RbK+" + "xOo="))))
  {
    SampleFrom6(d);
    EncodeStep(d, 3, "TxaQ" + ("9kYG" + ("zzhZ" + ("RbK+" + "xOo="))), 11, 12, 1, 34);
    assert [Base64.Digit(11), Base64.Digit(12), Base64.Digit(1), Base64.Digit(34)] == "LMBi";
  }

  /** The Base64 form of the sample digest of section 1.3 of RFC 6455, group by group. */
  lemma SampleEncoding(d: seq<byte>)
    requires IsSampleDigest(d)
    ensures Base64.Encode(d) == "s3pP" + ("LMBi" + ("TxaQ" + ("9kYG" + ("zzhZ" + ("RbK+" + "xOo=")))))
  {
    SampleFrom3(d);
    EncodeStep(d, 0, "LMBi" + ("TxaQ" + ("9kYG" + ("zzhZ" + ("RbK+" + "xOo=")))), 44, 55, 41, 15);
    assert [Base64.Digit(44), Base64.Digit(55), Base64.Digit(41), Base64.Digit(15)] == "s3pP";
  }
}
