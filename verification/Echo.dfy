/** The exact-size echo: a response built so that its JSON text has a given size. */
module Echo {
  import opened Frames
  import opened Unicode
  import opened Wrappers

  // ----- JSON text (RFC 8259, sections 6 and 7) -----

  function HexDigit(n: int): char
    requires 0 <= n < 16
  {
    "0123456789abcdef"[n]
  }

  /** The characters the encoder escapes, and how. */
  function Escaped(c: char): (r: string)
    ensures |r| >= 1
  {
    match c
    case '\"' => "\\\""
    case '\\' => "\\\\"
    case '\U{8}' => "\\b"
    case '\U{C}' => "\\f"
    case '\n' => "\\n"
    case '\r' => "\\r"
    case '\t' => "\\t"
    case _ =>
      var n := c as int;
      if n < 0x20 || c == '<' || c == '>' || c == '&' || n == 0x2028 || n == 0x2029 then
        "\\u" + [HexDigit(n / 0x1000 % 16), HexDigit(n / 0x100 % 16), HexDigit(n / 0x10 % 16), HexDigit(n % 16)]
      else [c]
  }

  /** The bytes of a JSON string's contents. */
  function Quoted(s: string): seq<byte> {
    if s == [] then [] else Encode(Escaped(s[0])) + Quoted(s[1..])
  }

  function Digits(n: nat): (r: string)
    ensures |r| >= 1 && forall i | 0 <= i < |r| :: '0' <= r[i] <= '9'
  {
    if n < 10 then [('0' as int + n) as char] else Digits(n / 10) + [('0' as int + n % 10) as char]
  }

  function Value(digits: string): int {
    if digits == [] then 0 else 10 * Value(digits[..|digits| - 1]) + (digits[|digits| - 1] as int - '0' as int)
  }

  /** The digits of a number read as that number, with no leading zero. */
  lemma {:induction false} DigitsReadBack(n: nat)
    ensures Value(Digits(n)) == n && (n > 0 ==> Digits(n)[0] != '0')
  {
    if n >= 10 {
      DigitsReadBack(n / 10);
      var d := Digits(n);
      assert d[..|d| - 1] == Digits(n / 10);
    } else {
      assert Digits(n)[..0] == [];
    }
  }

  function Decimal(n: int): (r: string)
    ensures |r| >= 1 && forall i | 0 <= i < |r| :: r[i] == '-' || '0' <= r[i] <= '9'
  {
    if n < 0 then "-" + Digits(-n) else Digits(n)
  }

  // ----- the echo answer -----

  datatype EchoResult = EchoResult(bytes: int, digest: string, fill: string)

  const OPEN := "{\"echo\":{\"bytes\":"
  const BEFORE_DIGEST := ",\"digest\":\""
  const BEFORE_FILL := "\",\"fill\":\""
  const CLOSE := "\"}}"

  /** The encoding of a response whose only field is the echo answer. */
  function Marshal(r: EchoResult): seq<byte> {
    Encode(OPEN) + Encode(Decimal(r.bytes)) + Encode(BEFORE_DIGEST) + Quoted(r.digest)
    + Encode(BEFORE_FILL) + Quoted(r.fill) + Encode(CLOSE)
  }

  /** A hash printed as 64 hexadecimal digits; nothing else is assumed of it. */
  ghost predicate HexDigest(hash: string -> string) {
    forall s :: |hash(s)| == 64 && forall i | 0 <= i < 64 :: hash(s)[i] in "0123456789abcdef"
  }

  function Fill(n: nat): (r: string)
    ensures |r| == n && forall c | c in r :: c == 'a'
  {
    if n == 0 then "" else "a" + Fill(n - 1)
  }

  function BuildEcho(hash: string -> string, n: int): Option<EchoResult> {
    var envelope := |Marshal(EchoResult(n, hash(""), ""))|;
    if n < envelope then None
    else Some(EchoResult(n, hash(Fill(n - envelope)), Fill(n - envelope)))
  }

  predicate VerifyEcho(hash: string -> string, r: EchoResult) {
    hash(r.fill) == r.digest && |Marshal(r)| == r.bytes
  }

  // ----- sizes -----

  predicate Plain(c: char) {
    0x20 <= c as int < 0x80 && c !in "\"\\<>&"
  }

  lemma {:induction false} PlainIsOneByteEach(s: string)
    requires forall c | c in s :: Plain(c)
    ensures |Quoted(s)| == |s|
  {
    if s != [] {
      assert Plain(s[0]);
      assert Encode([s[0]]) == Utf8(s[0]) + Encode([]);
      PlainIsOneByteEach(s[1..]);
    }
  }

  ghost predicate Ascii(s: string) {
    forall i | 0 <= i < |s| :: s[i] as int < 0x80
  }

  lemma {:induction false} AsciiIsOneByteEach(s: string)
    requires Ascii(s)
    ensures |Encode(s)| == |s|
  {
    if s != [] {
      assert |Utf8(s[0])| == 1;
      AsciiIsOneByteEach(s[1..]);
    }
  }

  /** Everything but the number, the digest and the fill takes 41 bytes. */
  lemma MarshalSize(r: EchoResult)
    ensures |Marshal(r)| == 41 + |Decimal(r.bytes)| + |Quoted(r.digest)| + |Quoted(r.fill)|
  {
    hide Encode, Quoted, Digits;
    AsciiIsOneByteEach(OPEN);
    AsciiIsOneByteEach(BEFORE_DIGEST);
    AsciiIsOneByteEach(BEFORE_FILL);
    AsciiIsOneByteEach(CLOSE);
    var number := Decimal(r.bytes);
    assert Ascii(number);
    AsciiIsOneByteEach(number);
  }

  lemma NothingQuoted()
    ensures Quoted("") == []
  {
  }

  lemma DigestSize(hash: string -> string, s: string)
    requires HexDigest(hash)
    ensures |Quoted(hash(s))| == 64
  {
    var d := hash(s);
    assert |d| == 64 && forall i | 0 <= i < 64 :: d[i] in "0123456789abcdef";
    forall c | c in "0123456789abcdef" ensures Plain(c) { }
    PlainIsOneByteEach(d);
  }

  lemma {:induction false} FewDigits(n: nat)
    requires n >= 100
    ensures 3 <= |Digits(n)| <= 3 + n / 1000
  {
    assert |Digits(n)| == 1 + |Digits(n / 10)|;
    if n < 1000 {
      assert |Digits(n / 10)| == 1 + |Digits(n / 100)|;
      assert n / 10 / 10 == n / 100;
      assert |Digits(n / 100)| == 1;
    } else {
      FewDigits(n / 10);
      assert n / 10 / 1000 + 1 <= n / 1000 by { TenthRounds(n); }
    }
  }

  lemma TenthRounds(n: nat)
    requires n >= 1000
    ensures n / 10 / 1000 + 1 <= n / 1000
  {
    var q := n / 1000;
    assert n / 10 / 1000 == n / 10000;
    assert n / 10000 <= q / 10;
  }

  /** An echo can be built exactly from 108 bytes up. */
  lemma BuildsFrom108(hash: string -> string, n: int)
    requires HexDigest(hash)
    ensures BuildEcho(hash, n).Some? <==> n >= 108
  {
    hide Marshal, Quoted, Digits, Fill, HexDigest;
    NothingQuoted();
    MarshalSize(EchoResult(n, hash(""), ""));
    DigestSize(hash, "");
    if n >= 100 {
      FewDigits(n);
    }
  }

  /** A built echo encodes to exactly the size asked for and verifies. */
  lemma BuiltIsExact(hash: string -> string, n: int)
    requires HexDigest(hash) && BuildEcho(hash, n).Some?
    ensures var r := BuildEcho(hash, n).value; |Marshal(r)| == n && r.bytes == n && VerifyEcho(hash, r)
  {
    hide Marshal, Quoted, Decimal, Fill, HexDigest;
    NothingQuoted();
    var r := BuildEcho(hash, n).value;
    MarshalSize(EchoResult(n, hash(""), ""));
    MarshalSize(r);
    DigestSize(hash, "");
    DigestSize(hash, r.fill);
    PlainIsOneByteEach(r.fill);
  }

  lemma {:induction false} QuotedGrows(s: string, k: nat)
    requires k < |s|
    ensures |Quoted(s[..k])| < |Quoted(s)|
  {
    if k == 0 {
      assert Escaped(s[0]) == [Escaped(s[0])[0]] + Escaped(s[0])[1..];
    } else {
      assert s[..k][1..] == s[1..][..k - 1];
      QuotedGrows(s[1..], k - 1);
    }
  }

  /** An answer that claims `bytes` is accepted exactly when the digest is that of
      the fill and the fill's encoding takes the bytes the envelope leaves. */
  lemma AcceptedExactly(hash: string -> string, r: EchoResult)
    requires HexDigest(hash)
    ensures VerifyEcho(hash, r) <==>
            r.digest == hash(r.fill) && |Quoted(r.fill)| == r.bytes - 105 - |Decimal(r.bytes)|
  {
    hide Marshal, Quoted, Decimal, HexDigest;
    MarshalSize(r);
    DigestSize(hash, r.fill);
  }

  /** A truncated answer never verifies, whatever digest it comes with and
      whatever the hash does. */
  lemma TruncationIsRejected(hash: string -> string, r: EchoResult, k: nat, digest: string)
    requires HexDigest(hash) && VerifyEcho(hash, r) && k < |r.fill|
    ensures !VerifyEcho(hash, EchoResult(r.bytes, digest, r.fill[..k]))
  {
    AcceptedExactly(hash, r);
    AcceptedExactly(hash, EchoResult(r.bytes, digest, r.fill[..k]));
    QuotedGrows(r.fill, k);
  }

  // ----- on the wire -----

  /** `WriteResponse`: an answer over the cap is not sent. */
  function WriteResponse(payload: seq<byte>): Option<seq<byte>> {
    if |payload| > MAX_RESPONSE_BYTES then None else Some(Prefixed(payload))
  }

  /** The doctor's question: an echo is sent exactly when it is at most the cap,
      and then the peer reads back the very bytes that were built. */
  lemma EchoCrossesTheWireUpToTheCap(hash: string -> string, n: int, rest: seq<byte>)
    requires HexDigest(hash) && BuildEcho(hash, n).Some?
    ensures var sent := WriteResponse(Marshal(BuildEcho(hash, n).value));
            && (sent.Some? <==> n <= MAX_RESPONSE_BYTES)
            && (sent.Some? ==>
                  ParsePrefixed(sent.value + rest, MAX_RESPONSE_BYTES) ==
                  Message(Marshal(BuildEcho(hash, n).value), rest))
  {
    hide Marshal, HexDigest, BuildEcho, ParsePrefixed, Prefixed;
    BuiltIsExact(hash, n);
    var payload := Marshal(BuildEcho(hash, n).value);
    if |payload| <= MAX_RESPONSE_BYTES {
      PrefixedRoundTrip(payload, rest, MAX_RESPONSE_BYTES);
    }
  }
}
