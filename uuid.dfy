/**
 * A 16-byte UUID, such as `uuid.New()` returns, and its canonical text
 * `xxxxxxxx-xxxx-xxxx-xxxx-xxxxxxxxxxxx` (RFC 4122, section 3): lower-case
 * hexadecimal in groups of 8, 4, 4, 4 and 12 digits. `Parse` is the inverse
 * used to show that the text determines the UUID.
 */
module Uuids {
  import opened Base

  type Uuid = s: seq<byte> | |s| == 16 witness [0, 0, 0, 0, 0, 0, 0, 0, 0, 0, 0, 0, 0, 0, 0, 0]

  function HexDigit(d: int): (c: char)
    requires 0 <= d < 16
  {
    if d < 10 then (48 + d) as char else (87 + d) as char
  }

  function HexValue(c: char): (r: Option<int>)
    ensures r.Some? ==> 0 <= r.value < 16 && HexDigit(r.value) == c
  {
    if '0' <= c <= '9' then Some(c as int - 48)
    else if 'a' <= c <= 'f' then Some(c as int - 87)
    else None
  }

  function Hex(bs: Bytes): (s: string)
    ensures |s| == 2 * |bs|
  {
    if bs == [] then [] else [HexDigit(bs[0] / 16), HexDigit(bs[0] % 16)] + Hex(bs[1..])
  }

  function ParseHex(s: string): Option<Bytes>
  {
    if |s| == 0 then Some([])
    else if |s| == 1 then None
    else match (HexValue(s[0]), HexValue(s[1]), ParseHex(s[2..]))
      case (Some(hi), Some(lo), Some(rest)) => Some([16 * hi + lo] + rest)
      case _ => None
  }

  /** `uuid.UUID.String()`. */
  function ToString(u: Uuid): (s: string)
    ensures |s| == 36
    ensures s[8] == s[13] == s[18] == s[23] == '-'
  {
    Hex(u[..4]) + "-" + Hex(u[4..6]) + "-" + Hex(u[6..8]) + "-" + Hex(u[8..10]) + "-" + Hex(u[10..])
  }

  function Parse(s: string): Option<Uuid>
  {
    if |s| != 36 || s[8] != '-' || s[13] != '-' || s[18] != '-' || s[23] != '-' then None
    else match ParseHex(s[..8] + s[9..13] + s[14..18] + s[19..23] + s[24..])
      case Some(b) => if |b| == 16 then Some(b) else None
      case None => None
  }

  lemma {:induction false} HexAppend(a: Bytes, b: Bytes)
    ensures Hex(a + b) == Hex(a) + Hex(b)
  {
    if a != [] {
      assert (a + b)[0] == a[0] && (a + b)[1..] == a[1..] + b;
      HexAppend(a[1..], b);
      assert Hex(a + b) == [HexDigit(a[0] / 16), HexDigit(a[0] % 16)] + Hex(a[1..] + b);
    } else {
      assert a + b == b;
    }
  }

  lemma {:induction false} ParseHexOfHex(bs: Bytes)
    ensures ParseHex(Hex(bs)) == Some(bs)
  {
    if bs != [] {
      var s := Hex(bs);
      var hi, lo := bs[0] / 16, bs[0] % 16;
      assert s[0] == HexDigit(hi) && s[1] == HexDigit(lo);
      assert HexValue(s[0]) == Some(hi);
      assert HexValue(s[1]) == Some(lo);
      assert s[2..] == Hex(bs[1..]);
      ParseHexOfHex(bs[1..]);
      assert [16 * hi + lo] + bs[1..] == bs;
    }
  }

  /** The text of a UUID reads back as that UUID. */
  lemma ParseToString(u: Uuid)
    ensures Parse(ToString(u)) == Some(u)
  {
    var s := ToString(u);
    var a, b, c, d, e := Hex(u[..4]), Hex(u[4..6]), Hex(u[6..8]), Hex(u[8..10]), Hex(u[10..]);
    assert s == a + "-" + b + "-" + c + "-" + d + "-" + e;
    assert s[..8] == a && s[9..13] == b && s[14..18] == c && s[19..23] == d && s[24..] == e;
    HexAppend(u[..4], u[4..6]);
    assert u[..4] + u[4..6] == u[..6];
    HexAppend(u[..6], u[6..8]);
    assert u[..6] + u[6..8] == u[..8];
    HexAppend(u[..8], u[8..10]);
    assert u[..8] + u[8..10] == u[..10];
    HexAppend(u[..10], u[10..]);
    assert u[..10] + u[10..] == u;
    ParseHexOfHex(u);
  }

  /** Distinct UUIDs have distinct texts, so ids derived from them never collide. */
  lemma ToStringInjective(u: Uuid, v: Uuid)
    ensures ToString(u) == ToString(v) <==> u == v
  {
    ParseToString(u);
    ParseToString(v);
  }
}
