/** Control requests: what a connection carries and what a reader accepts. */
module Requests {
  import opened Frames
  import opened Unicode
  import opened Wrappers

  const KIND_LAUNCH: byte := 'L' as int
  const KIND_EXEC: byte := 'X' as int
  const KIND_LAND: byte := 'D' as int
  const KIND_LIST: byte := 'I' as int
  const KIND_REMOVE: byte := 'R' as int
  const KIND_STATUS: byte := 'S' as int
  const KIND_GRANTS: byte := 'G' as int
  const KIND_GRANT: byte := 'A' as int
  const KIND_SYNC: byte := 'Y' as int
  const KIND_POLICY_SET: byte := 'P' as int
  const KIND_POLICY_SHOW: byte := 'Q' as int
  const KIND_EXPORT: byte := 'F' as int
  const KIND_HELLO: byte := 'V' as int
  const KIND_ECHO: byte := 'M' as int
  const KIND_SYNC_VERIFY: byte := 'K' as int

  const MAX_ARGV := 4096
  const MAX_ENV := 4096
  const MAX_ENV_ENTRY_BYTES := 0x8000
  const MAX_POLICY_ENTRIES := 1024
  const MAX_POLICY_ENTRY_BYTES := 512
  const MAX_PATH_BYTES := 4096
  const MAX_ECHO_BYTES := 2 * MAX_RESPONSE_BYTES
  const LEGACY_PROTOCOL := 1
  const MAX_VERSION_BYTES := 256

  /** Options that this package carries and does not look into, as their JSON text. */
  type Options = string

  datatype Payload =
    | Launch(options: Options)
    | Exec(task: string, argv: seq<string>, env: seq<string>, options: Options)
    | TaskRef(task: string)
    | Remove(task: string, force: bool)
    | Grant(task: string, key: string)
    | Sync(task: string, options: Options)
    | PolicySet(task: string, entries: seq<string>, drain: bool)
    | Export(task: string, guestPath: string, hostPath: string, options: Options)
    | Hello(protocol: int, version: string)
    | Echo(bytes: int)

  /** The payload fields that are set, each under the kind it belongs to. */
  type Parts = map<byte, Payload>

  datatype Request = Request(kind: byte, parts: Parts)

  predicate ValidKind(k: byte) {
    k in {KIND_LAUNCH, KIND_EXEC, KIND_LAND, KIND_LIST, KIND_REMOVE, KIND_STATUS, KIND_GRANTS, KIND_GRANT, KIND_SYNC,
          KIND_POLICY_SET, KIND_POLICY_SHOW, KIND_EXPORT, KIND_HELLO, KIND_ECHO, KIND_SYNC_VERIFY}
  }

  /** The type of the field that a kind's payload has in the request struct. */
  predicate FieldType(k: byte, p: Payload) {
    if k == KIND_LAUNCH then p.Launch?
    else if k == KIND_EXEC then p.Exec?
    else if k in {KIND_LAND, KIND_STATUS, KIND_GRANTS, KIND_POLICY_SHOW, KIND_SYNC_VERIFY} then p.TaskRef?
    else if k == KIND_REMOVE then p.Remove?
    else if k == KIND_GRANT then p.Grant?
    else if k == KIND_SYNC then p.Sync?
    else if k == KIND_POLICY_SET then p.PolicySet?
    else if k == KIND_EXPORT then p.Export?
    else if k == KIND_HELLO then p.Hello?
    else k == KIND_ECHO && p.Echo?
  }

  predicate WellTyped(parts: Parts) {
    forall k | k in parts :: FieldType(k, parts[k])
  }

  /** The protocol's outside parts: a JSON encoder, a strict decoder, and the
      validators of launch, exec and export requests in another package. */
  datatype Codec = Codec(encode: Parts -> seq<byte>, decode: seq<byte> -> Option<Parts>, vets: Payload -> bool)

  /** Go's `len` of a string: its bytes. */
  function Len(s: string): int {
    |Encode(s)|
  }

  /** The bounds a payload must keep. */
  predicate PayloadOk(c: Codec, p: Payload) {
    match p
    case Launch(_) => c.vets(p)
    case Exec(task, argv, env, _) =>
      task != "" && |argv| <= MAX_ARGV && |env| <= MAX_ENV && (forall e | e in env :: Len(e) <= MAX_ENV_ENTRY_BYTES)
        && c.vets(p)
    case TaskRef(task) => task != ""
    case Remove(task, _) => task != ""
    case Grant(task, key) => task != "" && key != ""
    case Sync(task, _) => task != ""
    case PolicySet(task, entries, _) =>
      task != "" && |entries| <= MAX_POLICY_ENTRIES && (forall e | e in entries :: Len(e) <= MAX_POLICY_ENTRY_BYTES)
    case Export(task, guest, host, _) => task != "" && Len(guest) <= MAX_PATH_BYTES && Len(host) <= MAX_PATH_BYTES
      && c.vets(p)
    case Hello(protocol, version) => protocol >= LEGACY_PROTOCOL && Len(version) <= MAX_VERSION_BYTES
    case Echo(bytes) => 0 <= bytes <= MAX_ECHO_BYTES
  }

  /** `Request.Validate`: first no payload of another kind, then the kind's own. */
  method Validate(c: Codec, req: Request) returns (ok: bool)
    requires WellTyped(req.parts)
    ensures ok <==> Acceptable(c, req)
  {
    var rest := req.parts.Keys;
    while rest != {}
      invariant rest <= req.parts.Keys && forall k | k in req.parts && k !in rest :: k == req.kind
      decreases rest
    {
      var k :| k in rest;
      if k != req.kind {
        return false;
      }
      rest := rest - {k};
    }
    if !ValidKind(req.kind) {
      return false;
    }
    if req.kind == KIND_LIST {
      return true;
    }
    return req.kind in req.parts && PayloadOk(c, req.parts[req.kind]);
  }

  /** A request carries exactly its own kind's payload, within bounds; a list
      request carries none. */
  predicate Acceptable(c: Codec, req: Request) {
    && ValidKind(req.kind)
    && if req.kind == KIND_LIST then req.parts == map[]
       else req.parts.Keys == {req.kind} && PayloadOk(c, req.parts[req.kind])
  }

  // ----- encoding -----

  /** The decoder undoes the encoder and only ever yields typed fields. */
  ghost predicate Lawful(c: Codec) {
    && (forall p: Parts :: WellTyped(p) ==> c.decode(c.encode(p)) == Some(p))
    && (forall s: seq<byte> :: c.decode(s).Some? ==> WellTyped(c.decode(s).value))
  }

  function Frame(kind: byte, payload: seq<byte>): seq<byte>
    requires |payload| <= MAX_REQUEST_BYTES
  {
    [kind] + Prefixed(payload)
  }

  datatype Reading = Got(request: Request, rest: seq<byte>) | End | Broken

  /** What one read makes of everything a peer has sent. */
  function ReadOne(c: Codec, s: seq<byte>): (r: Reading)
    ensures r.Got? ==> |r.rest| < |s|
  {
    if s == [] then End
    else match ParsePrefixed(s[1..], MAX_REQUEST_BYTES)
      case Message(payload, rest) =>
        (if !ValidKind(s[0]) then Broken
         else match c.decode(payload)
           case None => Broken
           case Some(parts) => if Acceptable(c, Request(s[0], parts)) then Got(Request(s[0], parts), rest) else Broken)
      case _ => Broken
  }

  function ReadAll(c: Codec, s: seq<byte>): Option<seq<Request>>
    decreases |s|
  {
    match ReadOne(c, s)
    case End => Some([])
    case Broken => None
    case Got(req, rest) =>
      match ReadAll(c, rest)
      case None => None
      case Some(more) => Some([req] + more)
  }

  ghost predicate Sendable(c: Codec, req: Request) {
    WellTyped(req.parts) && Acceptable(c, req) && |c.encode(req.parts)| <= MAX_REQUEST_BYTES
  }

  ghost predicate AllSendable(c: Codec, reqs: seq<Request>) {
    forall i | 0 <= i < |reqs| :: Sendable(c, reqs[i])
  }

  function WriteAll(c: Codec, reqs: seq<Request>): seq<byte>
    requires AllSendable(c, reqs)
  {
    if reqs == [] then [] else Frame(reqs[0].kind, c.encode(reqs[0].parts)) + WriteAll(c, reqs[1..])
  }

  /** A frame on the wire: the kind, four bytes of length, most significant first, and
      the payload. */
  lemma FrameLayout(kind: byte, payload: seq<byte>)
    requires |payload| <= MAX_REQUEST_BYTES
    ensures var f := Frame(kind, payload);
            && |f| == 5 + |payload| && f[0] == kind && f[5..] == payload
            && |payload| ==
               (f[1] as int) * 0x100_0000 + (f[2] as int) * 0x1_0000 + (f[3] as int) * 0x100 + (f[4] as int)
  {
    BigEndianIs(|payload|);
    assert Frame(kind, payload)[5..] == payload;
  }

  /** Every kind has a tag of its own. */
  lemma KindsAreDistinct()
    ensures |{KIND_LAUNCH, KIND_EXEC, KIND_LAND, KIND_LIST, KIND_REMOVE, KIND_STATUS, KIND_GRANTS, KIND_GRANT,
              KIND_SYNC, KIND_POLICY_SET, KIND_POLICY_SHOW, KIND_EXPORT, KIND_HELLO, KIND_ECHO, KIND_SYNC_VERIFY}| == 15
  {
  }

  /** The tag under which a payload travels. */
  lemma FieldTypeIs(k: byte, p: Payload)
    ensures FieldType(k, p) <==>
            match p
            case Launch(_) => k == 'L' as int
            case Exec(_, _, _, _) => k == 'X' as int
            case TaskRef(_) => k in {'D' as int, 'S' as int, 'G' as int, 'Q' as int, 'K' as int}
            case Remove(_, _) => k == 'R' as int
            case Grant(_, _) => k == 'A' as int
            case Sync(_, _) => k == 'Y' as int
            case PolicySet(_, _, _) => k == 'P' as int
            case Export(_, _, _, _) => k == 'F' as int
            case Hello(_, _) => k == 'V' as int
            case Echo(_) => k == 'M' as int
  {
  }

  /** What a reader accepts: a list request without a payload, or a request with the
      one payload of its kind, within these bounds. */
  lemma AcceptedByKind(c: Codec, req: Request)
    requires WellTyped(req.parts)
    ensures Acceptable(c, req) <==>
            || (req.kind == 'I' as int && req.parts == map[])
            || (req.parts.Keys == {req.kind} &&
                match req.parts[req.kind]
                case Launch(_) => c.vets(req.parts[req.kind])
                case Exec(task, argv, env, _) =>
                  && task != "" && |argv| <= 4096 && |env| <= 4096
                  && (forall e | e in env :: |Encode(e)| <= 32768) && c.vets(req.parts[req.kind])
                case TaskRef(task) => task != ""
                case Remove(task, _) => task != ""
                case Grant(task, key) => task != "" && key != ""
                case Sync(task, _) => task != ""
                case PolicySet(task, entries, _) =>
                  task != "" && |entries| <= 1024 && forall e | e in entries :: |Encode(e)| <= 512
                case Export(task, guest, host, _) =>
                  task != "" && |Encode(guest)| <= 4096 && |Encode(host)| <= 4096 && c.vets(req.parts[req.kind])
                case Hello(protocol, version) => protocol >= 1 && |Encode(version)| <= 256
                case Echo(bytes) => 0 <= bytes <= 2097152)
  {
    hide Encode;
    if req.parts.Keys == {req.kind} {
      assert FieldType(req.kind, req.parts[req.kind]);
    }
  }

  lemma FrameIsRead(c: Codec, req: Request, rest: seq<byte>)
    requires Lawful(c) && Sendable(c, req)
    ensures ReadOne(c, Frame(req.kind, c.encode(req.parts)) + rest) == Got(req, rest)
  {
    var payload := c.encode(req.parts);
    var s := Frame(req.kind, payload) + rest;
    assert s[1..] == Prefixed(payload) + rest;
    PrefixedRoundTrip(payload, rest, MAX_REQUEST_BYTES);
  }

  lemma NothingSent(c: Codec)
    ensures ReadOne(c, []) == End
  {
  }

  /** Any list of requests written back to back is read back as the same list. */
  lemma {:induction false} StreamRoundTrip(c: Codec, reqs: seq<Request>)
    requires Lawful(c) && AllSendable(c, reqs)
    ensures ReadAll(c, WriteAll(c, reqs)) == Some(reqs)
  {
    hide ReadOne, Frame, Lawful, Acceptable, WellTyped;
    if reqs == [] {
      assert ReadOne(c, []) == End by { NothingSent(c); }
    } else {
      FrameIsRead(c, reqs[0], WriteAll(c, reqs[1..]));
      StreamRoundTrip(c, reqs[1..]);
      assert reqs == [reqs[0]] + reqs[1..];
    }
  }

  lemma CutFrameIsBroken(c: Codec, req: Request, k: nat)
    requires Sendable(c, req) && 0 < k < |Frame(req.kind, c.encode(req.parts))|
    ensures ReadOne(c, Frame(req.kind, c.encode(req.parts))[..k]) == Broken
  {
    var cut := Frame(req.kind, c.encode(req.parts))[..k];
    assert cut[1..] == Prefixed(c.encode(req.parts))[..k - 1];
    StrictPrefixIsShort(c.encode(req.parts), MAX_REQUEST_BYTES, k - 1);
  }

  /** A stream cut anywhere inside its last frame is an error, not a shorter list. */
  lemma {:induction false} CutStreamIsAnError(c: Codec, reqs: seq<Request>, last: Request, k: nat)
    requires Lawful(c) && Sendable(c, last) && AllSendable(c, reqs)
    requires 0 < k < |Frame(last.kind, c.encode(last.parts))|
    ensures ReadAll(c, WriteAll(c, reqs) + Frame(last.kind, c.encode(last.parts))[..k]) == None
    decreases |reqs|
  {
    hide ReadOne, Frame, Lawful, Acceptable, WellTyped;
    var cut := Frame(last.kind, c.encode(last.parts))[..k];
    if reqs == [] {
      assert WriteAll(c, reqs) + cut == cut;
      CutFrameIsBroken(c, last, k);
    } else {
      FrameIsRead(c, reqs[0], WriteAll(c, reqs[1..]) + cut);
      assert WriteAll(c, reqs) + cut == Frame(reqs[0].kind, c.encode(reqs[0].parts)) + (WriteAll(c, reqs[1..]) + cut);
      CutStreamIsAnError(c, reqs[1..], last, k);
    }
  }

  /** What is accepted is in bounds, came in one frame under the cap, and is the
      decoding of exactly that frame's payload. */
  lemma AcceptedIsFramed(c: Codec, s: seq<byte>)
    requires Lawful(c) && ReadOne(c, s).Got?
    ensures var Got(req, rest) := ReadOne(c, s);
            && Acceptable(c, req) && WellTyped(req.parts)
            && exists payload: seq<byte> ::
                 |payload| <= MAX_REQUEST_BYTES && s == Frame(req.kind, payload) + rest
                   && c.decode(payload) == Some(req.parts)
  {
    ParsedWasPrefixed(s[1..], MAX_REQUEST_BYTES);
    var m := ParsePrefixed(s[1..], MAX_REQUEST_BYTES);
    assert s == Frame(s[0], m.payload) + m.rest;
  }

  // ----- the connection -----

  /** One direction of a connection: what is written and not yet read. */
  class Conn {
    var pending: seq<byte>

    /** `WriteRequest`: an over-cap request is refused and nothing is written. */
    method WriteRequest(c: Codec, req: Request) returns (ok: bool)
      modifies this
      ensures ok <==> |c.encode(req.parts)| <= MAX_REQUEST_BYTES
      ensures pending == if ok then old(pending) + Frame(req.kind, c.encode(req.parts)) else old(pending)
    {
      var payload := c.encode(req.parts);
      if |payload| > MAX_REQUEST_BYTES {
        return false;
      }
      var header := new byte[HEADER_LEN];
      header[0] := req.kind;
      PutLength(header, 1, |payload|);
      assert header[..] == [req.kind] + BigEndian(|payload|);
      pending := pending + header[..];
      if |payload| > 0 {
        pending := pending + payload;
      }
      return true;
    }

    /** `ReadRequest` on a peer that sends nothing more than `pending`. A payload
        over the cap is never taken off the connection. */
    method ReadRequest(c: Codec) returns (ok: bool, req: Request, end: bool)
      requires Lawful(c)
      modifies this
      ensures match ReadOne(c, old(pending))
              case Got(request, rest) => ok && req == request && pending == rest
              case End => !ok && end
              case Broken => !ok && !end
      ensures |old(pending)| >= HEADER_LEN && FromBigEndian(old(pending)[1..5]) > MAX_REQUEST_BYTES ==>
                !ok && pending == old(pending)[HEADER_LEN..]
      ensures |old(pending)| < HEADER_LEN ==> !ok && pending == []
      ensures |old(pending)| >= HEADER_LEN ==>
                (|old(pending)| - HEADER_LEN < FromBigEndian(old(pending)[1..5]) <= MAX_REQUEST_BYTES ==>
                   !ok && pending == [])
    {
      ok, end, req := false, pending == [], Request(0, map[]);
      ghost var s := pending;
      if |pending| < HEADER_LEN {
        pending := [];
        return;
      }
      var header := pending[..HEADER_LEN];
      pending := pending[HEADER_LEN..];
      var n := FromBigEndian(header[1..]);
      assert s[1..][..4] == header[1..];
      assert s[1..5] == header[1..];
      if n > MAX_REQUEST_BYTES {
        return;
      }
      if |pending| < n {
        pending := [];
        return;
      }
      var payload := pending[..n];
      pending := pending[n..];
      assert s[1..][4..4 + n] == payload && s[1..][4 + n..] == pending;
      if !ValidKind(header[0]) {
        return;
      }
      var decoded := c.decode(payload);
      if decoded.None? {
        return;
      }
      req := Request(header[0], decoded.value);
      ok := Validate(c, req);
    }
  }

  method PutLength(buf: array<byte>, at: nat, n: int)
    requires at + 4 <= buf.Length && 0 <= n < 0x1_0000_0000
    modifies buf
    ensures buf[at..at + 4] == BigEndian(n)
    ensures forall i | 0 <= i < buf.Length && !(at <= i < at + 4) :: buf[i] == old(buf[i])
  {
    var b := BigEndian(n);
    buf[at] := b[0];
    buf[at + 1] := b[1];
    buf[at + 2] := b[2];
    buf[at + 3] := b[3];
  }
}
