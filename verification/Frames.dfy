/** Frames of the control protocol: a kind byte and a length-prefixed payload. */
module Frames {

  type byte = x: int | 0 <= x < 256

  const MAX_REQUEST_BYTES := 0x10_0000
  const MAX_RESPONSE_BYTES := 0x10_0000
  const HEADER_LEN := 5

  /** The big-endian form of a 32-bit length. */
  function BigEndian(n: int): (r: seq<byte>)
    requires 0 <= n < 0x1_0000_0000
    ensures |r| == 4
  {
    var a: int := n / 0x100;
    var b: int := a / 0x100;
    var c: int := b / 0x100;
    [c, b % 0x100, a % 0x100, n % 0x100]
  }

  function FromBigEndian(s: seq<byte>): (n: int)
    requires |s| == 4
    ensures 0 <= n < 0x1_0000_0000
  {
    var a: int, b: int, c: int, d: int := s[0], s[1], s[2], s[3];
    ((a * 0x100 + b) * 0x100 + c) * 0x100 + d
  }

  /** Most significant byte first. */
  lemma BigEndianIs(n: int)
    requires 0 <= n < 0x1_0000_0000
    ensures var b := BigEndian(n);
            (b[0] as int) * 0x100_0000 + (b[1] as int) * 0x1_0000 + (b[2] as int) * 0x100 + (b[3] as int) == n
  {
    var a: int := n / 0x100;
    var b: int := a / 0x100;
    var c: int := b / 0x100;
    assert n == a * 0x100 + n % 0x100 && a == b * 0x100 + a % 0x100 && b == c * 0x100 + b % 0x100;
  }

  lemma LengthRoundTrip(n: int)
    requires 0 <= n < 0x1_0000_0000
    ensures FromBigEndian(BigEndian(n)) == n
  {
  }

  lemma LengthIsUnique(s: seq<byte>)
    requires |s| == 4
    ensures BigEndian(FromBigEndian(s)) == s
  {
    var a: int, b: int, c: int, d: int := s[0], s[1], s[2], s[3];
    var n: int := FromBigEndian(s);
    assert n / 0x100 == (a * 0x100 + b) * 0x100 + c;
    assert ((a * 0x100 + b) * 0x100 + c) / 0x100 == a * 0x100 + b;
  }

  // ----- length-prefixed messages -----

  datatype Parsed = Message(payload: seq<byte>, rest: seq<byte>) | Short | TooLarge

  function Prefixed(payload: seq<byte>): seq<byte>
    requires |payload| < 0x1_0000_0000
  {
    BigEndian(|payload|) + payload
  }

  /** What a reader makes of the bytes `s` that a peer has sent in all. */
  function ParsePrefixed(s: seq<byte>, max: int): Parsed {
    if |s| < 4 then Short
    else
      var n := FromBigEndian(s[..4]);
      if n > max then TooLarge
      else if |s| < 4 + n then Short
      else Message(s[4..4 + n], s[4 + n..])
  }

  /** A message within the cap is read back whole, whatever follows it; one over
      the cap never is. */
  lemma PrefixedRoundTrip(payload: seq<byte>, rest: seq<byte>, max: int)
    requires |payload| < 0x1_0000_0000
    ensures ParsePrefixed(Prefixed(payload) + rest, max) ==
            if |payload| <= max then Message(payload, rest) else TooLarge
  {
    var s := Prefixed(payload) + rest;
    LengthRoundTrip(|payload|);
    assert s[..4] == BigEndian(|payload|);
    if |payload| <= max {
      assert s[4..4 + |payload|] == payload;
      assert s[4 + |payload|..] == rest;
    }
  }

  /** Reading is the inverse of writing: what is read is what was written. */
  lemma ParsedWasPrefixed(s: seq<byte>, max: int)
    requires ParsePrefixed(s, max).Message?
    ensures var m := ParsePrefixed(s, max);
            |m.payload| <= max && |m.payload| < 0x1_0000_0000 && s == Prefixed(m.payload) + m.rest
  {
    LengthIsUnique(s[..4]);
    var m := ParsePrefixed(s, max);
    assert s == s[..4] + (m.payload + m.rest);
  }

  /** No strict prefix of a message is a message. */
  lemma StrictPrefixIsShort(payload: seq<byte>, max: int, k: nat)
    requires |payload| <= max && |payload| < 0x1_0000_0000 && k < |Prefixed(payload)|
    ensures ParsePrefixed(Prefixed(payload)[..k], max) == Short
  {
    LengthRoundTrip(|payload|);
    if k >= 4 {
      assert Prefixed(payload)[..k][..4] == BigEndian(|payload|);
    }
  }
}
