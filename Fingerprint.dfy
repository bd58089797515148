/** hashPath (main.go:233-247): the cache key of a request path is the lower-case hex
    rendering of a 32-byte digest of the path. The digest itself (blake2b-256 over the
    path's bytes) is an uninterpreted function handed in by the caller; the model only
    uses that it is a function, so equal paths give equal keys. */
module Fingerprint {

  newtype byte = x: int | 0 <= x < 256

  /** The size of a blake2b-256 digest, in bytes. */
  const DigestSize: nat := 32

  /** The lower-case hex digit of a value below 16, as in hex.EncodeToString. */
  function HexDigit(n: int): char
    requires 0 <= n < 16
  {
    if n < 10 then ('0' as int + n) as char else ('a' as int + n - 10) as char
  }

  /** The value of a lower-case hex digit; None for any other character. */
  function HexValue(c: char): (v: Option<int>)
    ensures v.Some? ==> 0 <= v.value < 16
  {
    if '0' <= c <= '9' then Some(c as int - '0' as int)
    else if 'a' <= c <= 'f' then Some(c as int - 'a' as int + 10)
    else None
  }

  datatype Option<T> = None | Some(value: T)

  /** hex.EncodeToString: two lower-case digits per byte, high nibble first. */
  function HexEncode(bs: seq<byte>): (s: string)
    ensures |s| == 2 * |bs|
    ensures forall i :: 0 <= i < |s| ==> HexValue(s[i]).Some?
  {
    if bs == [] then []
    else
      var rest := HexEncode(bs[1..]);
      var hi, lo := bs[0] as int / 16, bs[0] as int % 16;
      HexValueOfDigit(hi);
      HexValueOfDigit(lo);
      var pair := [HexDigit(hi), HexDigit(lo)];
      assert forall i :: 0 <= i < |pair| ==> HexValue(pair[i]).Some?;
      pair + rest
  }

  /** The inverse of HexEncode: a string of an even number of lower-case hex digits back
      to its bytes, None for anything else. */
  function HexDecode(s: string): (r: Option<seq<byte>>)
    ensures r.Some? ==> |s| == 2 * |r.value|
    decreases |s|
  {
    if s == [] then Some([])
    else if |s| == 1 then None
    else
      var hi, lo, rest := HexValue(s[0]), HexValue(s[1]), HexDecode(s[2..]);
      if hi.Some? && lo.Some? && rest.Some?
      then Some([(hi.value * 16 + lo.value) as byte] + rest.value)
      else None
  }

  /** Reading back a digit gives its value. */
  lemma HexValueOfDigit(n: int)
    requires 0 <= n < 16
    ensures HexValue(HexDigit(n)) == Some(n)
  {
  }

  /** Splitting a byte into its two nibbles and joining them again gives the byte. */
  lemma Nibbles(b: int)
    requires 0 <= b < 256
    ensures 0 <= b / 16 < 16 && 0 <= b % 16 < 16 && (b / 16) * 16 + b % 16 == b
  {
  }

  /** Decoding two digits in front of a decodable string. */
  lemma DecodePair(hi: int, lo: int, t: string)
    requires 0 <= hi < 16 && 0 <= lo < 16
    requires HexDecode(t).Some?
    ensures HexDecode([HexDigit(hi), HexDigit(lo)] + t) == Some([(hi * 16 + lo) as byte] + HexDecode(t).value)
  {
    var s := [HexDigit(hi), HexDigit(lo)] + t;
    assert s[0] == HexDigit(hi) && s[1] == HexDigit(lo) && s[2..] == t;
    HexValueOfDigit(hi);
    HexValueOfDigit(lo);
    assert 0 <= hi * 16 + lo < 256;
  }

  /** Decoding the hex rendering of bytes gives back those bytes. */
  lemma {:induction false} DecodeEncode(bs: seq<byte>)
    ensures HexDecode(HexEncode(bs)) == Some(bs)
  {
    if bs != [] {
      var b := bs[0] as int;
      Nibbles(b);
      DecodeEncode(bs[1..]);
      DecodePair(b / 16, b % 16, HexEncode(bs[1..]));
      assert bs == [bs[0]] + bs[1..];
    }
  }

  /** Distinct byte strings have distinct hex renderings. */
  lemma HexEncodeInjective(a: seq<byte>, b: seq<byte>)
    requires HexEncode(a) == HexEncode(b)
    ensures a == b
  {
    DecodeEncode(a);
    DecodeEncode(b);
  }

  /** hashPath: the hex rendering of the digest of the path. */
  function HashPath(digest: string -> seq<byte>, path: string): (key: string)
    ensures |digest(path)| == DigestSize ==> |key| == 2 * DigestSize
    ensures forall i :: 0 <= i < |key| ==> HexValue(key[i]).Some?
  {
    HexEncode(digest(path))
  }

  /** Two paths share a cache key exactly when their digests coincide: the key adds no
      collisions of its own beyond those of the digest. */
  lemma SameKeyIffSameDigest(digest: string -> seq<byte>, p1: string, p2: string)
    ensures HashPath(digest, p1) == HashPath(digest, p2) <==> digest(p1) == digest(p2)
  {
    if HashPath(digest, p1) == HashPath(digest, p2) {
      HexEncodeInjective(digest(p1), digest(p2));
    }
  }
}
