/** A reader of the echo answer as the peer has it: UTF-8 (RFC 3629), then one JSON
    object inside another (RFC 8259), whatever order its members come in. */
module EchoReader {
  import opened Frames
  import opened Unicode
  import opened Wrappers
  import opened Echo

  // ----- UTF-8 -----

  predicate IsScalar(n: int) {
    0 <= n < 0xD800 || 0xE000 <= n < 0x11_0000
  }

  /** What a continuing byte adds. */
  function Low(b: int): int {
    b - 0x80
  }

  /** The number a leading byte and the bytes that continue it stand for. */
  function Continued(first: int, s: seq<byte>): Option<int> {
    if s == [] then Some(first)
    else if !(0x80 <= s[|s| - 1] < 0xC0) then None
    else match Continued(first, s[..|s| - 1])
      case None => None
      case Some(n) => Some(n * 0x40 + Low(s[|s| - 1]))
  }

  /** How many bytes the character beginning with this byte takes, and what of it
      belongs to the character. */
  function Leading(b: byte): Option<(nat, int)> {
    if b < 0x80 then Some((1, b))
    else if 0xC0 <= b < 0xE0 then Some((2, b - 0xC0))
    else if 0xE0 <= b < 0xF0 then Some((3, b - 0xE0))
    else if 0xF0 <= b < 0xF8 then Some((4, b - 0xF0))
    else None
  }

  function Decoded(s: seq<byte>): Option<string>
    decreases |s|
  {
    if s == [] then Some("")
    else match Leading(s[0])
      case None => None
      case Some((len, first)) =>
        if len > |s| || len == 0 then None
        else match Continued(first, s[1..len])
          case None => None
          case Some(n) =>
            if !IsScalar(n) then None
            else match Decoded(s[len..])
              case None => None
              case Some(more) => Some([n as char] + more)
  }

  lemma ContinuedBy(first: int, s: seq<byte>, b: byte)
    requires 0x80 <= b < 0xC0 && Continued(first, s).Some?
    ensures Continued(first, s + [b]) == Some(Continued(first, s).value * 0x40 + Low(b))
  {
    assert (s + [b])[..|s|] == s;
  }

  predicate Continues(b: int) {
    0x80 <= b < 0xC0
  }

  lemma ContinuedIs(first: int, s: seq<byte>)
    requires |s| <= 3 && forall b | b in s :: Continues(b)
    ensures |s| == 0 ==> Continued(first, s) == Some(first)
    ensures |s| == 1 ==> Continued(first, s) == Some(first * 0x40 + Low(s[0]))
    ensures |s| == 2 ==> Continued(first, s) == Some((first * 0x40 + Low(s[0])) * 0x40 + Low(s[1]))
    ensures |s| == 3 ==>
              Continued(first, s) == Some(((first * 0x40 + Low(s[0])) * 0x40 + Low(s[1])) * 0x40 + Low(s[2]))
  {
    if s != [] {
      var front, b := s[..|s| - 1], s[|s| - 1];
      assert s == front + [b];
      assert forall x | x in front :: x in s;
      ContinuedIs(first, front);
      assert b in s;
      ContinuedBy(first, front, b);
    }
  }

  lemma CharReads(c: char)
    ensures var u := Utf8(c);
            && Leading(u[0]).Some? && Leading(u[0]).value.0 == |u|
            && Continued(Leading(u[0]).value.1, u[1..]) == Some(c as int) && IsScalar(c as int)
  {
    hide Continued;
    var u, n := Utf8(c), c as int;
    var first := Leading(u[0]).value.1;
    if n < 0x80 {
      ContinuedIs(first, u[1..]);
    } else if n < 0x800 {
      TwoBytes(u, first, n);
    } else if n < 0x1_0000 {
      ThreeBytes(u, first, n);
    } else {
      FourBytes(u, first, n);
    }
  }

  lemma TwoBytes(u: seq<byte>, first: int, n: int)
    requires 0 <= n < 0x800 && u == [0xC0 + n / 0x40, 0x80 + n % 0x40] && first == n / 0x40
    ensures Continued(first, u[1..]) == Some(n)
  {
    hide Continued;
    assert u[1..] == [u[1]];
    ContinuedIs(first, u[1..]);
  }

  lemma ThreeBytes(u: seq<byte>, first: int, n: int)
    requires 0 <= n < 0x1_0000 && u == [0xE0 + n / 0x1000, 0x80 + n / 0x40 % 0x40, 0x80 + n % 0x40]
             && first == n / 0x1000
    ensures Continued(first, u[1..]) == Some(n)
  {
    hide Continued;
    assert u[1..] == [u[1], u[2]];
    ContinuedIs(first, u[1..]);
    Sixes(n);
  }

  lemma FourBytes(u: seq<byte>, first: int, n: int)
    requires 0 <= n < 0x11_0000 && first == n / 0x4_0000
    requires u == [0xF0 + n / 0x4_0000, 0x80 + n / 0x1000 % 0x40, 0x80 + n / 0x40 % 0x40, 0x80 + n % 0x40]
    ensures Continued(first, u[1..]) == Some(n)
  {
    hide Continued;
    assert u[1..] == [u[1], u[2], u[3]];
    ContinuedIs(first, u[1..]);
    Sixes(n);
  }

  lemma Sixes(n: nat)
    ensures n / 0x1000 * 0x40 + n / 0x40 % 0x40 == n / 0x40 && n / 0x4_0000 * 0x40 + n / 0x1000 % 0x40 == n / 0x1000
  {
    assert n / 0x40 / 0x40 == n / 0x1000 && n / 0x1000 / 0x40 == n / 0x4_0000;
  }

  lemma {:induction false} DecodedUndoesEncode(s: string)
    ensures Decoded(Encode(s)) == Some(s)
  {
    if s != [] {
      var u, rest := Utf8(s[0]), Encode(s[1..]);
      CharReads(s[0]);
      DecodedUndoesEncode(s[1..]);
      var all := u + rest;
      assert all[0] == u[0] && all[1..|u|] == u[1..] && all[|u|..] == rest;
      assert [s[0]] + s[1..] == s;
    }
  }

  // ----- JSON -----

  function HexValue(c: char): Option<int> {
    if '0' <= c <= '9' then Some(c as int - '0' as int)
    else if 'a' <= c <= 'f' then Some(c as int - 'a' as int + 10)
    else if 'A' <= c <= 'F' then Some(c as int - 'A' as int + 10)
    else None
  }

  /** The character behind `\u` and four hexadecimal digits. */
  function HexChar(s: string): Option<char>
    requires |s| == 4
  {
    match (HexValue(s[0]), HexValue(s[1]), HexValue(s[2]), HexValue(s[3]))
    case (Some(a), Some(b), Some(c), Some(d)) =>
      var n := ((a * 16 + b) * 16 + c) * 16 + d;
      if IsScalar(n) then Some(n as char) else None
    case _ => None
  }

  /** The character behind a backslash. */
  function ShortEscape(c: char): Option<char> {
    match c
    case '\"' => Some('\"')
    case '\\' => Some('\\')
    case '/' => Some('/')
    case 'b' => Some('\U{8}')
    case 'f' => Some('\U{C}')
    case 'n' => Some('\n')
    case 'r' => Some('\r')
    case 't' => Some('\t')
    case _ => None
  }

  /** The next character of a string and what follows it. */
  function ReadChar(s: string): (r: Option<(char, string)>)
    ensures r.Some? ==> |r.value.1| < |s|
  {
    if s == "" || s[0] == '\"' || s[0] < ' ' then None
    else if s[0] != '\\' then Some((s[0], s[1..]))
    else if |s| < 2 then None
    else if s[1] == 'u' then
      if |s| < 6 then None
      else match HexChar(s[2..6])
        case None => None
        case Some(c) => Some((c, s[6..]))
    else match ShortEscape(s[1])
      case None => None
      case Some(c) => Some((c, s[2..]))
  }

  /** A string up to its closing quote, and what follows it. */
  function ReadString(s: string): (r: Option<(string, string)>)
    ensures r.Some? ==> |r.value.1| < |s|
    decreases |s|
  {
    if s != "" && s[0] == '\"' then Some(("", s[1..]))
    else match ReadChar(s)
      case None => None
      case Some((c, more)) =>
        match ReadString(more)
        case None => None
        case Some((t, rest)) => Some(([c] + t, rest))
  }

  function LeadingDigits(s: string): (n: nat)
    ensures n <= |s|
  {
    if s == "" || !('0' <= s[0] <= '9') then 0 else 1 + LeadingDigits(s[1..])
  }

  /** An integer and what follows it. */
  function ReadNumber(s: string): (r: Option<(int, string)>)
    ensures r.Some? ==> |r.value.1| < |s|
  {
    var negative := s != "" && s[0] == '-';
    var tail := if negative then s[1..] else s;
    var n := LeadingDigits(tail);
    if n == 0 then None
    else Some((if negative then -Value(tail[..n]) else Value(tail[..n]), tail[n..]))
  }

  datatype Scalar = Number(n: int) | Text(s: string)

  function ReadScalar(s: string): (r: Option<(Scalar, string)>)
    ensures r.Some? ==> |r.value.1| < |s|
  {
    if s != "" && s[0] == '\"' then
      match ReadString(s[1..])
      case None => None
      case Some((t, rest)) => Some((Text(t), rest))
    else
      match ReadNumber(s)
      case None => None
      case Some((n, rest)) => Some((Number(n), rest))
  }

  /** A key, a colon and what follows it. */
  function ReadKey(s: string): (r: Option<(string, string)>)
    ensures r.Some? ==> |r.value.1| < |s|
  {
    if s == "" || s[0] != '\"' then None
    else match ReadString(s[1..])
      case None => None
      case Some((key, rest)) => if rest != "" && rest[0] == ':' then Some((key, rest[1..])) else None
  }

  /** The members of an object up to its closing brace, and what follows it. */
  function ReadMembers(s: string): Option<(map<string, Scalar>, string)>
    decreases |s|
  {
    match ReadKey(s)
    case None => None
    case Some((key, tail)) =>
      match ReadScalar(tail)
      case None => None
      case Some((value, rest)) =>
        if rest == "" then None
        else if rest[0] == '}' then Some((map[key := value], rest[1..]))
        else if rest[0] != ',' then None
        else match ReadMembers(rest[1..])
          case None => None
          case Some((more, end)) => Some((more[key := value], end))
  }

  /** The answer in a response's bytes. */
  function ReadEcho(s: seq<byte>): Option<EchoResult> {
    match Decoded(s)
    case None => None
    case Some(text) =>
      if text == "" || text[0] != '{' then None
      else match ReadKey(text[1..])
        case None => None
        case Some((key, tail)) =>
          if key != "echo" || tail == "" || tail[0] != '{' then None
          else match ReadMembers(tail[1..])
            case None => None
            case Some((fields, end)) => if end == "}" then FromFields(fields) else None
  }

  function FromFields(fields: map<string, Scalar>): Option<EchoResult> {
    if fields.Keys == {"bytes", "digest", "fill"} && fields["bytes"].Number? && fields["digest"].Text?
       && fields["fill"].Text?
    then Some(EchoResult(fields["bytes"].n, fields["digest"].s, fields["fill"].s))
    else None
  }

  // ----- reading back what is written -----

  lemma {:induction false} EncodeJoins(a: string, b: string)
    ensures Encode(a + b) == Encode(a) + Encode(b)
  {
    if a == [] {
      assert a + b == b;
    } else {
      assert (a + b)[1..] == a[1..] + b;
      EncodeJoins(a[1..], b);
    }
  }

  function EscapedText(s: string): string {
    if s == [] then "" else Escaped(s[0]) + EscapedText(s[1..])
  }

  lemma {:induction false} QuotedIsEncoded(s: string)
    ensures Quoted(s) == Encode(EscapedText(s))
  {
    if s != [] {
      QuotedIsEncoded(s[1..]);
      EncodeJoins(Escaped(s[0]), EscapedText(s[1..]));
    }
  }

  function AnswerText(r: EchoResult): string {
    OPEN + Decimal(r.bytes) + BEFORE_DIGEST + EscapedText(r.digest) + BEFORE_FILL + EscapedText(r.fill) + CLOSE
  }

  lemma MarshalIsEncoded(r: EchoResult)
    ensures Marshal(r) == Encode(AnswerText(r))
  {
    hide Encode, Decimal, EscapedText, Quoted;
    QuotedIsEncoded(r.digest);
    QuotedIsEncoded(r.fill);
    var a, b := OPEN + Decimal(r.bytes), OPEN + Decimal(r.bytes) + BEFORE_DIGEST;
    var c := b + EscapedText(r.digest);
    var d := c + BEFORE_FILL;
    EncodeJoins(OPEN, Decimal(r.bytes));
    EncodeJoins(a, BEFORE_DIGEST);
    EncodeJoins(b, EscapedText(r.digest));
    EncodeJoins(c, BEFORE_FILL);
    EncodeJoins(d, EscapedText(r.fill));
    EncodeJoins(d + EscapedText(r.fill), CLOSE);
  }

  lemma HexReads(n: int)
    requires 0 <= n < 16
    ensures HexValue(HexDigit(n)) == Some(n)
  {
  }

  lemma Nibbles(n: int)
    requires 0 <= n < 0x1_0000
    ensures n / 0x1000 % 16 == n / 0x1000 && n / 0x1000 * 16 + n / 0x100 % 16 == n / 0x100
    ensures n / 0x100 * 16 + n / 0x10 % 16 == n / 0x10 && n / 0x10 * 16 + n % 16 == n
  {
    assert n / 0x100 / 16 == n / 0x1000 && n / 0x10 / 16 == n / 0x100;
  }

  lemma HexCharIs(s: string, a: int, b: int, c: int, d: int)
    requires |s| == 4 && HexValue(s[0]) == Some(a) && HexValue(s[1]) == Some(b) && HexValue(s[2]) == Some(c)
             && HexValue(s[3]) == Some(d) && IsScalar(((a * 16 + b) * 16 + c) * 16 + d)
    ensures HexChar(s) == Some((((a * 16 + b) * 16 + c) * 16 + d) as char)
  {
    hide HexValue;
  }

  lemma HexCharReads(n: int)
    requires 0 <= n < 0x1_0000 && IsScalar(n)
    ensures HexChar([HexDigit(n / 0x1000 % 16), HexDigit(n / 0x100 % 16), HexDigit(n / 0x10 % 16), HexDigit(n % 16)])
         == Some(n as char)
  {
    hide HexDigit, HexValue, HexChar;
    var a, b, c, d := n / 0x1000 % 16, n / 0x100 % 16, n / 0x10 % 16, n % 16;
    HexReads(a);
    HexReads(b);
    HexReads(c);
    HexReads(d);
    assert ((a * 16 + b) * 16 + c) * 16 + d == n by { Nibbles(n); }
    HexCharIs([HexDigit(a), HexDigit(b), HexDigit(c), HexDigit(d)], a, b, c, d);
  }

  /** Every character is read back from its escape, and from that alone. */
  lemma EscapeReads(c: char, rest: string)
    ensures ReadChar(Escaped(c) + rest) == Some((c, rest))
  {
    hide HexDigit, HexChar, HexValue;
    var e, n := Escaped(c), c as int;
    var s := e + rest;
    assert s[|e|..] == rest && s[0] == e[0];
    if |e| == 6 {
      HexCharReads(n);
      assert s[2..6] == e[2..6];
      assert e[2..6] ==
             [HexDigit(n / 0x1000 % 16), HexDigit(n / 0x100 % 16), HexDigit(n / 0x10 % 16), HexDigit(n % 16)];
    }
  }

  /** A character is escaped exactly when it is a quote, a backslash, a control, one of
      the three that mean something in HTML, or a line separator of JavaScript; so none
      of these is ever in the text itself. */
  lemma EscapedIffNeeded(c: char)
    ensures Escaped(c) == [c] <==>
            c >= ' ' && c !in "\"\\<>&" && c != '\U{2028}' && c != '\U{2029}'
    ensures forall i | 0 <= i < |Escaped(c)| ::
              Escaped(c)[i] >= ' ' && Escaped(c)[i] !in "<>&" && Escaped(c)[i] != '\U{2028}'
                && Escaped(c)[i] != '\U{2029}'
  {
    hide HexDigit;
    forall n: int | 0 <= n < 16 { HexIsPlain(n); }
  }

  lemma HexIsPlain(n: int)
    requires 0 <= n < 16
    ensures HexDigit(n) >= '0' && HexDigit(n) <= 'f' && HexDigit(n) !in "<>&"
  {
  }

  lemma {:induction false} StringReads(t: string, rest: string)
    ensures ReadString(EscapedText(t) + "\"" + rest) == Some((t, rest))
  {
    hide ReadChar, Escaped;
    var tail := EscapedText(t[if t == [] then 0 else 1..]) + "\"" + rest;
    if t == [] {
      assert EscapedText(t) + "\"" + rest == "\"" + rest;
      assert ("\"" + rest)[1..] == rest;
    } else {
      StringReads(t[1..], rest);
      EscapeReads(t[0], tail);
      assert EscapedText(t) + "\"" + rest == Escaped(t[0]) + tail;
      EscapeIsNoQuote(t[0]);
      assert (Escaped(t[0]) + tail)[0] == Escaped(t[0])[0];
      assert [t[0]] + t[1..] == t;
    }
  }

  lemma EscapeIsNoQuote(c: char)
    ensures Escaped(c)[0] != '\"'
  {
  }

  lemma {:induction false} DigitsLead(digits: string, rest: string)
    requires forall i | 0 <= i < |digits| :: '0' <= digits[i] <= '9'
    requires rest == "" || !('0' <= rest[0] <= '9')
    ensures LeadingDigits(digits + rest) == |digits|
  {
    if digits == [] {
      assert digits + rest == rest;
    } else {
      assert (digits + rest)[1..] == digits[1..] + rest;
      DigitsLead(digits[1..], rest);
    }
  }

  lemma DigitsRead(n: nat, rest: string)
    requires rest == "" || !('0' <= rest[0] <= '9')
    ensures var s := Digits(n) + rest;
            && LeadingDigits(s) == |Digits(n)| && s[..|Digits(n)|] == Digits(n) && s[|Digits(n)|..] == rest
            && Value(Digits(n)) == n && s != "" && '0' <= s[0] <= '9'
  {
    hide Digits, Value, LeadingDigits;
    DigitsReadBack(n);
    DigitsLead(Digits(n), rest);
  }

  lemma NumberReads(n: int, rest: string)
    requires rest == "" || !('0' <= rest[0] <= '9')
    ensures ReadNumber(Decimal(n) + rest) == Some((n, rest))
  {
    hide Digits, Value, LeadingDigits;
    var s := Decimal(n) + rest;
    if n < 0 {
      DigitsRead(-n, rest);
      assert s[0] == '-' && s[1..] == Digits(-n) + rest;
    } else {
      DigitsRead(n, rest);
      assert s == Digits(n) + rest;
    }
  }

  predicate Plainly(c: char) {
    c >= ' ' && c != '\"' && c != '\\'
  }

  /** A key without quotes, backslashes and controls is read as it stands. */
  lemma {:induction false} PlainStringReads(key: string, rest: string)
    requires forall c | c in key :: Plainly(c)
    ensures ReadString(key + "\"" + rest) == Some((key, rest))
  {
    if key == [] {
      assert key + "\"" + rest == "\"" + rest;
      assert ("\"" + rest)[1..] == rest;
    } else {
      var tail := key[1..] + "\"" + rest;
      assert forall c | c in key[1..] :: c in key;
      PlainStringReads(key[1..], rest);
      assert key + "\"" + rest == [key[0]] + tail && ([key[0]] + tail)[1..] == tail;
      assert key[0] in key;
      assert [key[0]] + key[1..] == key;
    }
  }

  lemma KeyReads(key: string, rest: string)
    requires forall c | c in key :: Plainly(c)
    ensures ReadKey("\"" + key + "\":" + rest) == Some((key, rest))
  {
    hide ReadString;
    var s := "\"" + key + "\":" + rest;
    assert s[1..] == key + "\"" + (":" + rest);
    PlainStringReads(key, ":" + rest);
    assert (":" + rest)[1..] == rest;
  }

  lemma TextReads(t: string, rest: string)
    ensures ReadScalar("\"" + EscapedText(t) + "\"" + rest) == Some((Text(t), rest))
  {
    hide ReadString, EscapedText;
    var s := "\"" + EscapedText(t) + "\"" + rest;
    assert s[1..] == EscapedText(t) + "\"" + rest;
    StringReads(t, rest);
  }

  lemma NumberIsScalar(n: int, rest: string)
    requires rest == "" || !('0' <= rest[0] <= '9')
    ensures ReadScalar(Decimal(n) + rest) == Some((Number(n), rest))
  {
    hide ReadNumber, Digits;
    NumberReads(n, rest);
    assert (Decimal(n) + rest)[0] == Decimal(n)[0];
  }

  /** One member: what its value reads as is what the object holds under its key. */
  lemma MemberReads(key: string, value: Scalar, text: string, rest: string)
    requires forall c | c in key :: Plainly(c)
    requires rest != "" && ReadScalar(text + rest) == Some((value, rest))
    ensures var s := "\"" + key + "\":" + text + rest;
            && (rest[0] == '}' ==> ReadMembers(s) == Some((map[key := value], rest[1..])))
            && (rest[0] == ',' && ReadMembers(rest[1..]).Some? ==>
                  var (more, end) := ReadMembers(rest[1..]).value; ReadMembers(s) == Some((more[key := value], end)))
  {
    hide ReadKey, ReadScalar;
    var s := "\"" + key + "\":" + text + rest;
    assert s == "\"" + key + "\":" + (text + rest);
    KeyReads(key, text + rest);
  }

  lemma KeysArePlain()
    ensures forall key, c | key in {"echo", "bytes", "digest", "fill"} && c in key :: Plainly(c)
  {
    forall c | c in "echo" ensures Plainly(c) { }
    forall c | c in "bytes" ensures Plainly(c) { }
    forall c | c in "digest" ensures Plainly(c) { }
    forall c | c in "fill" ensures Plainly(c) { }
  }

  lemma MembersRead(r: EchoResult)
    ensures ReadMembers("\"bytes\":" + Decimal(r.bytes) + BEFORE_DIGEST + EscapedText(r.digest) + BEFORE_FILL
                        + EscapedText(r.fill) + CLOSE)
         == Some((map["fill" := Text(r.fill)]["digest" := Text(r.digest)]["bytes" := Number(r.bytes)], "}"))
  {
    hide ReadMembers, ReadScalar, Decimal, EscapedText;
    KeysArePlain();
    var fill := "\"" + EscapedText(r.fill) + "\"";
    var digest := "\"" + EscapedText(r.digest) + "\"";
    var three := "\"" + "fill" + "\":" + fill + "}}";
    var two := "\"" + "digest" + "\":" + digest + ("," + three);
    var one := "\"" + "bytes" + "\":" + Decimal(r.bytes) + ("," + two);
    TextReads(r.fill, "}}");
    assert fill + "}}" == "\"" + EscapedText(r.fill) + "\"" + "}}";
    MemberReads("fill", Text(r.fill), fill, "}}");
    assert "}}"[1..] == "}";
    TextReads(r.digest, "," + three);
    assert digest + ("," + three) == "\"" + EscapedText(r.digest) + "\"" + ("," + three);
    assert ("," + three)[1..] == three && ("," + two)[1..] == two;
    MemberReads("digest", Text(r.digest), digest, "," + three);
    NumberIsScalar(r.bytes, "," + two);
    MemberReads("bytes", Number(r.bytes), Decimal(r.bytes), "," + two);
    MembersAre(r);
  }

  lemma MembersAre(r: EchoResult)
    ensures "\"bytes\":" + Decimal(r.bytes) + BEFORE_DIGEST + EscapedText(r.digest) + BEFORE_FILL
            + EscapedText(r.fill) + CLOSE
         == "\"" + "bytes" + "\":" + Decimal(r.bytes)
            + ("," + ("\"" + "digest" + "\":" + ("\"" + EscapedText(r.digest) + "\"")
                      + ("," + ("\"" + "fill" + "\":" + ("\"" + EscapedText(r.fill) + "\"") + "}}"))))
  {
    hide Decimal, EscapedText;
    assert "\"bytes\":" == "\"" + "bytes" + "\":";
    assert BEFORE_DIGEST == "," + "\"" + "digest" + "\":" + "\"";
    assert BEFORE_FILL == "\"" + "," + "\"" + "fill" + "\":" + "\"";
    assert CLOSE == "\"" + "}}";
  }

  function MembersText(r: EchoResult): string {
    "\"bytes\":" + Decimal(r.bytes) + BEFORE_DIGEST + EscapedText(r.digest) + BEFORE_FILL + EscapedText(r.fill) + CLOSE
  }

  lemma AnswerTextIs(r: EchoResult)
    ensures AnswerText(r) == "{" + ("\"" + "echo" + "\":" + ("{" + MembersText(r)))
  {
    hide Decimal, EscapedText;
    assert OPEN == "{" + ("\"" + "echo" + "\":") + "{" + "\"bytes\":";
  }

  lemma FieldsRead(r: EchoResult)
    ensures FromFields(map["fill" := Text(r.fill)]["digest" := Text(r.digest)]["bytes" := Number(r.bytes)]) == Some(r)
  {
    NamesDiffer();
  }

  /** The peer reads back exactly the answer that was written, for every answer: the
      number under "bytes", the digest under "digest", the fill under "fill". */
  lemma AnswerReadsBack(r: EchoResult)
    ensures ReadEcho(Marshal(r)) == Some(r)
  {
    hide Encode, Decoded, ReadMembers, ReadKey, Decimal, EscapedText, Marshal, AnswerText, MembersText, FromFields;
    MarshalIsEncoded(r);
    DecodedUndoesEncode(AnswerText(r));
    assert ReadMembers(MembersText(r)) ==
           Some((map["fill" := Text(r.fill)]["digest" := Text(r.digest)]["bytes" := Number(r.bytes)], "}")) by {
      MembersTextRead(r);
    }
    KeysArePlain();
    FieldsRead(r);
    AnswerTextIs(r);
    var tail := "{" + MembersText(r);
    KeyReads("echo", tail);
    assert AnswerText(r)[1..] == "\"" + "echo" + "\":" + tail && tail[1..] == MembersText(r);
  }

  lemma MembersTextRead(r: EchoResult)
    ensures ReadMembers(MembersText(r)) ==
            Some((map["fill" := Text(r.fill)]["digest" := Text(r.digest)]["bytes" := Number(r.bytes)], "}"))
  {
    hide ReadMembers, Decimal, EscapedText;
    MembersRead(r);
  }

  lemma NamesDiffer()
    ensures "bytes" != "digest" && "bytes" != "fill" && "digest" != "fill"
  {
    assert "bytes"[0] == 'b' && "digest"[0] == 'd' && "fill"[0] == 'f';
  }

  /** The doctor's question, answered at the other end: an echo of at least 108 bytes is
      sent if and only if it is at most the cap, and what the peer reads is an answer of
      exactly the bytes asked for that it accepts. */
  lemma PeerAcceptsTheEcho(hash: string -> string, n: int, rest: seq<byte>)
    requires HexDigest(hash) && n >= 108
    ensures BuildEcho(hash, n).Some?
    ensures var sent := WriteResponse(Marshal(BuildEcho(hash, n).value));
            && (sent.Some? <==> n <= MAX_RESPONSE_BYTES)
            && (sent.Some? ==>
                  var read := ParsePrefixed(sent.value + rest, MAX_RESPONSE_BYTES);
                  && read.Message? && read.rest == rest && |read.payload| == n
                  && var r := ReadEcho(read.payload); r.Some? && r.value.bytes == n && VerifyEcho(hash, r.value))
  {
    hide Marshal, HexDigest, BuildEcho, ParsePrefixed, Prefixed, ReadEcho, VerifyEcho;
    BuildsFrom108(hash, n);
    BuiltIsExact(hash, n);
    EchoCrossesTheWireUpToTheCap(hash, n, rest);
    AnswerReadsBack(BuildEcho(hash, n).value);
  }
}
