/** The wire format (protocol/protocols.c, protocol/protocols.h): an opcode byte followed by a packed
    struct whose length the opcode determines. */
module Framing {
  import opened Wrappers
  import opened FsBytes

  const NPIPE_PATH_SIZE: nat := 256
  const BOX_NAME_SIZE: nat := 32
  const MSG_SIZE: nat := 1024

  // request_proto_t
  const REQUEST_SIZE: nat := NPIPE_PATH_SIZE + BOX_NAME_SIZE

  // response_proto_t
  const ERROR_AT: nat := 4
  const RESPONSE_SIZE: nat := ERROR_AT + MSG_SIZE

  // list_boxes_response_proto_t
  const BOX_AT: nat := 1
  const BOX_SIZE_AT: nat := BOX_AT + BOX_NAME_SIZE
  const PUBLISHERS_AT: nat := BOX_SIZE_AT + 8
  const SUBSCRIBERS_AT: nat := PUBLISHERS_AT + 8
  const LIST_RESPONSE_SIZE: nat := SUBSCRIBERS_AT + 8

  const REGISTER_PUBLISHER: byte := 1
  const REGISTER_SUBSCRIBER: byte := 2
  const CREATE_BOX_REQUEST: byte := 3
  const CREATE_BOX_RESPONSE: byte := 4
  const REMOVE_BOX_REQUEST: byte := 5
  const REMOVE_BOX_RESPONSE: byte := 6
  const LIST_BOXES_REQUEST: byte := 7
  const LIST_BOXES_RESPONSE: byte := 8

  type uint64 = x: int | 0 <= x < 0x1_0000_0000_0000_0000

  /** The four kinds of struct, with the values of their fields. */
  datatype Message =
    | Request(pipe: CString, box: CString)
    | Response(code: int32, error: CString)
    | ListRequest(pipe: CString)
    | ListResponse(last: byte, box: CString, size: uint64, publishers: uint64, subscribers: uint64)

  /** The opcodes proto_size accepts; it panics on the others. */
  predicate Known(opcode: byte) {
    1 <= opcode <= 8
  }

  // proto_size
  function ProtoSize(opcode: byte): nat
    requires Known(opcode)
  {
    if opcode in {REGISTER_PUBLISHER, REGISTER_SUBSCRIBER, CREATE_BOX_REQUEST, REMOVE_BOX_REQUEST} then
      REQUEST_SIZE
    else if opcode == LIST_BOXES_REQUEST then NPIPE_PATH_SIZE
    else if opcode in {REMOVE_BOX_RESPONSE, CREATE_BOX_RESPONSE} then RESPONSE_SIZE
    else LIST_RESPONSE_SIZE
  }

  /** proto_size accepts the eight requests and responses and nothing else, messages to publishers (9) and
      subscribers (10) in particular, and these are the lengths of the packed structs. */
  lemma SizesOf(opcode: byte)
    ensures Known(opcode) <==> opcode in {1, 2, 3, 4, 5, 6, 7, 8}
    ensures opcode in {1, 2, 3, 5} ==> ProtoSize(opcode) == 288
    ensures opcode in {4, 6} ==> ProtoSize(opcode) == 1028
    ensures opcode == 7 ==> ProtoSize(opcode) == 256
    ensures opcode == 8 ==> ProtoSize(opcode) == 57
  {
  }

  // ---------------------------------------------------------------------------------------------
  // Fields
  // ---------------------------------------------------------------------------------------------

  /** The C string stored at the start of some bytes. */
  function CStr(mem: seq<byte>): CString {
    if mem == [] || mem[0] == 0 then [] else [mem[0]] + CStr(mem[1..])
  }

  /** strcpy into a field: whatever follows the NUL stays as it was. */
  function StrCpy(mem: seq<byte>, at: nat, s: CString): (r: seq<byte>)
    requires at + |s| < |mem|
    ensures |r| == |mem|
  {
    Splice(mem, at, s + [0])
  }

  lemma {:induction false} CStrTerminated(s: CString, rest: seq<byte>)
    ensures CStr(s + [0] + rest) == s
  {
    var mem := s + [0] + rest;
    if s != [] {
      assert s[0] in s;
      assert mem[1..] == s[1..] + [0] + rest;
      CStrTerminated(s[1..], rest);
    }
  }

  /** A field that was filled by strcpy reads back as the string, whatever memory it was in. */
  lemma StrCpyField(mem: seq<byte>, at: nat, s: CString, size: nat)
    requires |s| < size && at + size <= |mem|
    ensures CStr(StrCpy(mem, at, s)[at..at + size]) == s
  {
    var field := StrCpy(mem, at, s)[at..at + size];
    assert field == s + [0] + field[|s| + 1..];
    CStrTerminated(s, field[|s| + 1..]);
  }

  /** An unsigned integer of n bytes in memory order. */
  function EncodeUint(v: nat, n: nat): (b: seq<byte>)
    ensures |b| == n
  {
    if n == 0 then [] else [v % 256] + EncodeUint(v / 256, n - 1)
  }

  function DecodeUint(b: seq<byte>): nat {
    if b == [] then 0 else b[0] as int + 256 * DecodeUint(b[1..])
  }

  function Power256(n: nat): nat {
    if n == 0 then 1 else 256 * Power256(n - 1)
  }

  lemma {:induction false} UintRoundTrip(v: nat, n: nat)
    requires v < Power256(n)
    ensures DecodeUint(EncodeUint(v, n)) == v
  {
    if n > 0 {
      assert v / 256 < Power256(n - 1);
      UintRoundTrip(v / 256, n - 1);
      assert EncodeUint(v, n)[1..] == EncodeUint(v / 256, n - 1);
    }
  }

  lemma Uint64RoundTrip(v: uint64)
    ensures DecodeUint(EncodeUint(v, 8)) == v
  {
    assert Power256(2) == 65536;
    assert Power256(4) == 65536 * 65536;
    assert Power256(6) == 65536 * Power256(4);
    assert Power256(8) == 65536 * Power256(6);
    UintRoundTrip(v, 8);
  }

  lemma DecodeFour(b: seq<byte>)
    requires |b| >= 4
    ensures DecodeUint(b) == b[0] as int + 0x100 * b[1] as int + 0x1_0000 * b[2] as int + 0x100_0000 * b[3] as int
                             + 0x1_0000_0000 * DecodeUint(b[4..])
  {
    assert b[1..][1..] == b[2..] && b[2..][1..] == b[3..] && b[3..][1..] == b[4..];
    assert DecodeUint(b[3..]) == b[3] as int + 0x100 * DecodeUint(b[4..]);
    assert DecodeUint(b[2..]) == b[2] as int + 0x100 * DecodeUint(b[3..]);
    assert DecodeUint(b[1..]) == b[1] as int + 0x100 * DecodeUint(b[2..]);
  }

  /** The low byte comes first. */
  lemma LittleEndian(v: uint64)
    ensures var b := EncodeUint(v, 8);
            v == b[0] as int + 0x100 * b[1] as int + 0x1_0000 * b[2] as int + 0x100_0000 * b[3] as int
                 + 0x1_0000_0000 * b[4] as int + 0x100_0000_0000 * b[5] as int
                 + 0x1_0000_0000_0000 * b[6] as int + 0x100_0000_0000_0000 * b[7] as int
  {
    Uint64RoundTrip(v);
    var b := EncodeUint(v, 8);
    DecodeFour(b);
    DecodeFour(b[4..]);
    assert DecodeUint(b[4..][4..]) == 0;
  }

  function Uint64At(p: seq<byte>, at: nat): uint64
    requires at + 8 <= |p|
  {
    DecodeUint(p[at..at + 8]) % 0x1_0000_0000_0000_0000
  }

  /** What the receiver reads from a struct of the given opcode. */
  function Decode(opcode: byte, p: seq<byte>): Message
    requires Known(opcode) && |p| == ProtoSize(opcode)
  {
    if opcode in {REGISTER_PUBLISHER, REGISTER_SUBSCRIBER, CREATE_BOX_REQUEST, REMOVE_BOX_REQUEST} then
      Request(CStr(p[..NPIPE_PATH_SIZE]), CStr(p[NPIPE_PATH_SIZE..]))
    else if opcode == LIST_BOXES_REQUEST then ListRequest(CStr(p))
    else if opcode in {REMOVE_BOX_RESPONSE, CREATE_BOX_RESPONSE} then
      Response(DecodeInt(p[..ERROR_AT]), CStr(p[ERROR_AT..]))
    else
      ListResponse(p[0], CStr(p[BOX_AT..BOX_SIZE_AT]),
                   Uint64At(p, BOX_SIZE_AT), Uint64At(p, PUBLISHERS_AT), Uint64At(p, SUBSCRIBERS_AT))
  }

  // ---------------------------------------------------------------------------------------------
  // The struct builders: malloc leaves arbitrary bytes, strcpy fills only as far as the NUL
  // ---------------------------------------------------------------------------------------------

  method CopyBytes(p: array<byte>, at: nat, bytes: seq<byte>)
    requires at + |bytes| <= p.Length
    modifies p
    ensures p[..] == Splice(old(p[..]), at, bytes)
  {
    var i := 0;
    while i < |bytes|
      invariant 0 <= i <= |bytes|
      invariant p[..] == Splice(old(p[..]), at, bytes[..i])
    {
      p[at + i] := bytes[i];
      i := i + 1;
    }
    assert bytes[..i] == bytes;
  }

  method CopyString(p: array<byte>, at: nat, s: CString)
    requires at + |s| < p.Length
    modifies p
    ensures p[..] == StrCpy(old(p[..]), at, s)
  {
    CopyBytes(p, at, s + [0]);
  }

  /** A string stored at the start leaves alone what comes after its field. */
  lemma StoredBefore(mem: seq<byte>, s: CString, n: nat)
    requires |s| < n <= |mem|
    ensures StrCpy(mem, 0, s)[n..] == mem[n..]
  {
  }

  lemma RequestDecoded(opcode: byte, mem: seq<byte>, pipe: CString, box: CString)
    requires opcode in {REGISTER_PUBLISHER, REGISTER_SUBSCRIBER, CREATE_BOX_REQUEST, REMOVE_BOX_REQUEST}
    requires |mem| == REQUEST_SIZE && |pipe| < NPIPE_PATH_SIZE && |box| < BOX_NAME_SIZE
    ensures Decode(opcode, StrCpy(StrCpy(mem, NPIPE_PATH_SIZE, box), 0, pipe)) == Request(pipe, box)
  {
    var q := StrCpy(mem, NPIPE_PATH_SIZE, box);
    var r := StrCpy(q, 0, pipe);
    StrCpyField(mem, NPIPE_PATH_SIZE, box, BOX_NAME_SIZE);
    StrCpyField(q, 0, pipe, NPIPE_PATH_SIZE);
    StoredBefore(q, pipe, NPIPE_PATH_SIZE);
    assert q[NPIPE_PATH_SIZE..] == q[NPIPE_PATH_SIZE..NPIPE_PATH_SIZE + BOX_NAME_SIZE];
    assert r[..NPIPE_PATH_SIZE] == r[0..0 + NPIPE_PATH_SIZE];
  }

  // request_proto, protocols.c:66
  method RequestProto(opcode: byte, pipe: CString, box: CString) returns (p: array<byte>)
    requires opcode in {REGISTER_PUBLISHER, REGISTER_SUBSCRIBER, CREATE_BOX_REQUEST, REMOVE_BOX_REQUEST}
    requires |pipe| < NPIPE_PATH_SIZE && |box| < BOX_NAME_SIZE
    ensures fresh(p) && p.Length == ProtoSize(opcode)
    ensures Decode(opcode, p[..]) == Request(pipe, box)
    ensures p[..|pipe| + 1] == pipe + [0] && p[256..256 + |box| + 1] == box + [0]
  {
    p := new byte[REQUEST_SIZE];
    RequestDecoded(opcode, p[..], pipe, box);
    CopyString(p, NPIPE_PATH_SIZE, box);
    CopyString(p, 0, pipe);
  }

  lemma ResponseDecoded(opcode: byte, mem: seq<byte>, code: int32, error: CString)
    requires opcode in {CREATE_BOX_RESPONSE, REMOVE_BOX_RESPONSE}
    requires |mem| == RESPONSE_SIZE && |error| < MSG_SIZE
    ensures Decode(opcode, StrCpy(Splice(mem, 0, EncodeInt(code)), ERROR_AT, error)) == Response(code, error)
  {
    var q := Splice(mem, 0, EncodeInt(code));
    var r := StrCpy(q, ERROR_AT, error);
    IntRoundTrip(code);
    StrCpyField(q, ERROR_AT, error, MSG_SIZE);
    assert r[..ERROR_AT] == q[..ERROR_AT] == EncodeInt(code);
    assert r[ERROR_AT..] == r[ERROR_AT..ERROR_AT + MSG_SIZE];
  }

  // response_proto, protocols.c:73
  method ResponseProto(opcode: byte, code: int32, error: CString) returns (p: array<byte>)
    requires opcode in {CREATE_BOX_RESPONSE, REMOVE_BOX_RESPONSE} && |error| < MSG_SIZE
    ensures fresh(p) && p.Length == ProtoSize(opcode)
    ensures Decode(opcode, p[..]) == Response(code, error)
    ensures p[..4] == EncodeInt(code) && p[4..4 + |error| + 1] == error + [0]
  {
    p := new byte[RESPONSE_SIZE];
    ResponseDecoded(opcode, p[..], code, error);
    CopyBytes(p, 0, EncodeInt(code));
    CopyString(p, ERROR_AT, error);
  }

  // list_boxes_request_proto, protocols.c:80
  method ListBoxesRequestProto(pipe: CString) returns (p: array<byte>)
    requires |pipe| < NPIPE_PATH_SIZE
    ensures fresh(p) && p.Length == ProtoSize(LIST_BOXES_REQUEST)
    ensures Decode(LIST_BOXES_REQUEST, p[..]) == ListRequest(pipe)
    ensures p[..|pipe| + 1] == pipe + [0]
  {
    p := new byte[NPIPE_PATH_SIZE](_ => 0);
    ghost var q := p[..];
    CopyString(p, 0, pipe);
    StrCpyField(q, 0, pipe, NPIPE_PATH_SIZE);
    assert p[..] == p[..][0..NPIPE_PATH_SIZE];
  }

  lemma Uint64Field(p: seq<byte>, at: nat, v: uint64)
    requires at + 8 <= |p| && p[at..at + 8] == EncodeUint(v, 8)
    ensures Uint64At(p, at) == v
  {
    Uint64RoundTrip(v);
  }

  /** The three numbers of list_boxes_response_proto_t, stored one after the other. */
  function StoreNumbers(p: seq<byte>, size: seq<byte>, publishers: seq<byte>, subscribers: seq<byte>): (r: seq<byte>)
    requires |p| == LIST_RESPONSE_SIZE && |size| == |publishers| == |subscribers| == 8
    ensures |r| == |p|
  {
    Splice(Splice(Splice(p, BOX_SIZE_AT, size), PUBLISHERS_AT, publishers), SUBSCRIBERS_AT, subscribers)
  }

  /** They stay in their places when the name before them is stored, whatever is in the memory. */
  lemma NumbersKept(p: seq<byte>, size: seq<byte>, publishers: seq<byte>, subscribers: seq<byte>, box: CString)
    requires |p| == LIST_RESPONSE_SIZE && |size| == |publishers| == |subscribers| == 8
    requires |box| < BOX_NAME_SIZE
    ensures var r := StrCpy(StoreNumbers(p, size, publishers, subscribers), BOX_AT, box);
            && r[0] == p[0]
            && r[BOX_SIZE_AT..BOX_SIZE_AT + 8] == size
            && r[PUBLISHERS_AT..PUBLISHERS_AT + 8] == publishers
            && r[SUBSCRIBERS_AT..SUBSCRIBERS_AT + 8] == subscribers
  {
  }

  lemma ListResponseDecoded(
    p: seq<byte>, last: byte, box: CString, size: uint64, publishers: uint64, subscribers: uint64)
    requires |p| == LIST_RESPONSE_SIZE && p[0] == last && |box| < BOX_NAME_SIZE
    ensures var q := StoreNumbers(p, EncodeUint(size, 8), EncodeUint(publishers, 8), EncodeUint(subscribers, 8));
            var r := StrCpy(q, BOX_AT, box);
            && Decode(LIST_BOXES_RESPONSE, r) == ListResponse(last, box, size, publishers, subscribers)
            && r[0] == last && r[1..1 + |box| + 1] == box + [0] && r[33..41] == EncodeUint(size, 8)
            && r[41..49] == EncodeUint(publishers, 8) && r[49..57] == EncodeUint(subscribers, 8)
  {
    var a, b, c := EncodeUint(size, 8), EncodeUint(publishers, 8), EncodeUint(subscribers, 8);
    var r := StrCpy(StoreNumbers(p, a, b, c), BOX_AT, box);
    NumbersKept(p, a, b, c, box);
    Uint64Field(r, BOX_SIZE_AT, size);
    Uint64Field(r, PUBLISHERS_AT, publishers);
    Uint64Field(r, SUBSCRIBERS_AT, subscribers);
    StrCpyField(StoreNumbers(p, a, b, c), BOX_AT, box, BOX_NAME_SIZE);
    assert r[1..1 + |box| + 1] == box + [0];
  }

  // list_boxes_response_proto, protocols.c:87
  method ListBoxesResponseProto(last: byte, box: CString, size: uint64, publishers: uint64, subscribers: uint64)
    returns (p: array<byte>)
    requires |box| < BOX_NAME_SIZE
    ensures fresh(p) && p.Length == ProtoSize(LIST_BOXES_RESPONSE)
    ensures Decode(LIST_BOXES_RESPONSE, p[..]) == ListResponse(last, box, size, publishers, subscribers)
    ensures p[0] == last && p[1..1 + |box| + 1] == box + [0]
    ensures p[33..41] == EncodeUint(size, 8)
    ensures p[41..49] == EncodeUint(publishers, 8) && p[49..57] == EncodeUint(subscribers, 8)
  {
    p := new byte[LIST_RESPONSE_SIZE];
    p[0] := last;
    ListResponseDecoded(p[..], last, box, size, publishers, subscribers);
    CopyBytes(p, BOX_SIZE_AT, EncodeUint(size, 8));
    CopyBytes(p, PUBLISHERS_AT, EncodeUint(publishers, 8));
    CopyBytes(p, SUBSCRIBERS_AT, EncodeUint(subscribers, 8));
    CopyString(p, BOX_AT, box);
    assert p[33..41] == p[..][33..41] && p[41..49] == p[..][41..49] && p[49..57] == p[..][49..57];
    assert p[1..1 + |box| + 1] == p[..][1..1 + |box| + 1];
  }

  // ---------------------------------------------------------------------------------------------
  // Streams of frames
  // ---------------------------------------------------------------------------------------------

  /** An opcode and the struct that goes with it. */
  datatype Packet = Packet(opcode: byte, body: seq<byte>)

  predicate Proper(p: Packet) {
    Known(p.opcode) && |p.body| == ProtoSize(p.opcode)
  }

  predicate AllProper(packets: seq<Packet>) {
    forall i :: 0 <= i < |packets| ==> Proper(packets[i])
  }

  function Frame(p: Packet): seq<byte> {
    [p.opcode] + p.body
  }

  function Wire(packets: seq<Packet>): seq<byte> {
    if packets == [] then [] else Frame(packets[0]) + Wire(packets[1..])
  }

  /** Repeatedly an opcode and then as many bytes as it calls for.  None where the program panics: on
      an opcode it does not know, or when the stream ends inside a frame. */
  function Parse(stream: seq<byte>): (r: Option<seq<Packet>>)
    ensures r.Some? ==> AllProper(r.value)
  {
    if stream == [] then Some([])
    else if !Known(stream[0]) || |stream| < 1 + ProtoSize(stream[0]) then None
    else
      var n := 1 + ProtoSize(stream[0]);
      var rest := Parse(stream[n..]);
      if rest == None then None else Some([Packet(stream[0], stream[1..n])] + rest.value)
  }

  /** The first frame of a stream is its first packet. */
  lemma ParseFirst(p: Packet, rest: seq<byte>)
    requires Proper(p)
    ensures Parse(Frame(p) + rest) == if Parse(rest) == None then None else Some([p] + Parse(rest).value)
  {
    var stream, n := Frame(p) + rest, 1 + |p.body|;
    assert stream[0] == p.opcode && stream[1..n] == p.body && stream[n..] == rest;
  }

  /** Any sequence of frames parses back into the packets it was made of. */
  lemma {:induction false} ParseWire(packets: seq<Packet>)
    requires AllProper(packets)
    ensures Parse(Wire(packets)) == Some(packets)
  {
    if packets != [] {
      ParseWire(packets[1..]);
      ParseFirst(packets[0], Wire(packets[1..]));
      assert packets == [packets[0]] + packets[1..];
    }
  }

  /** Only one sequence of packets has these bytes. */
  lemma WireInjective(packets: seq<Packet>, others: seq<Packet>)
    requires AllProper(packets)
    requires AllProper(others)
    requires Wire(packets) == Wire(others)
    ensures packets == others
  {
    ParseWire(packets);
    ParseWire(others);
  }

  lemma {:induction false} WireAppend(packets: seq<Packet>, p: Packet)
    ensures Wire(packets + [p]) == Wire(packets) + Frame(p)
  {
    if packets == [] {
      assert [p][1..] == [];
    } else {
      var all, first := packets + [p], Frame(packets[0]);
      WireAppend(packets[1..], p);
      assert all[0] == packets[0] && all[1..] == packets[1..] + [p];
      assert Wire(all) == first + (Wire(packets[1..]) + Frame(p));
      assert first + (Wire(packets[1..]) + Frame(p)) == first + Wire(packets[1..]) + Frame(p);
    }
  }

  // ---------------------------------------------------------------------------------------------
  // Messages
  // ---------------------------------------------------------------------------------------------

  datatype Envelope = Envelope(opcode: byte, message: Message)

  /** The message has the struct of its opcode, and its strings are shorter than their fields. */
  predicate Sendable(e: Envelope) {
    match e.message
    case Request(pipe, box) =>
      && e.opcode in {REGISTER_PUBLISHER, REGISTER_SUBSCRIBER, CREATE_BOX_REQUEST, REMOVE_BOX_REQUEST}
      && |pipe| < NPIPE_PATH_SIZE && |box| < BOX_NAME_SIZE
    case Response(code, error) =>
      e.opcode in {CREATE_BOX_RESPONSE, REMOVE_BOX_RESPONSE} && |error| < MSG_SIZE
    case ListRequest(pipe) =>
      e.opcode == LIST_BOXES_REQUEST && |pipe| < NPIPE_PATH_SIZE
    case ListResponse(last, box, size, publishers, subscribers) =>
      e.opcode == LIST_BOXES_RESPONSE && |box| < BOX_NAME_SIZE
  }

  /** There is a message for every opcode. */
  lemma EveryOpcodeSendable(opcode: byte) returns (e: Envelope)
    requires opcode in {1, 2, 3, 4, 5, 6, 7, 8}
    ensures Sendable(e) && e.opcode == opcode
  {
    if opcode in {1, 2, 3, 5} {
      e := Envelope(opcode, Request([], []));
    } else if opcode in {4, 6} {
      e := Envelope(opcode, Response(0, []));
    } else if opcode == 7 {
      e := Envelope(opcode, ListRequest([]));
    } else {
      e := Envelope(opcode, ListResponse(0, [], 0, 0, 0));
    }
  }

  function Opened(packets: seq<Packet>): (es: seq<Envelope>)
    requires AllProper(packets)
    ensures |es| == |packets|
    ensures forall i :: 0 <= i < |es| ==>
              es[i] == Envelope(packets[i].opcode, Decode(packets[i].opcode, packets[i].body))
  {
    if packets == [] then []
    else
      [Envelope(packets[0].opcode, Decode(packets[0].opcode, packets[0].body))] + Opened(packets[1..])
  }

  /** The messages in a stream. */
  function Messages(stream: seq<byte>): Option<seq<Envelope>> {
    if Parse(stream) == None then None else Some(Opened(Parse(stream).value))
  }

  /** A frame at the end of a stream is the last packet in it. */
  lemma {:induction false} ParseAppend(stream: seq<byte>, p: Packet)
    requires Parse(stream).Some? && Proper(p)
    ensures Parse(stream + Frame(p)) == Some(Parse(stream).value + [p])
    decreases |stream|
  {
    if stream == [] {
      assert stream + Frame(p) == Frame(p) + [];
      ParseFirst(p, []);
      assert [p] + [] == [] + [p];
    } else {
      var n := 1 + ProtoSize(stream[0]);
      var q, tail := Packet(stream[0], stream[1..n]), stream[n..];
      assert stream == Frame(q) + tail;
      ParseAppend(tail, p);
      ParseFirst(q, tail);
      ParseFirst(q, tail + Frame(p));
      AppendAfter(Frame(q), tail, Frame(p));
      AppendAfter([q], Parse(tail).value, [p]);
    }
  }

  lemma MessagesAppend(stream: seq<byte>, e: Envelope, body: seq<byte>)
    requires Messages(stream).Some? && Known(e.opcode) && |body| == ProtoSize(e.opcode)
    requires Decode(e.opcode, body) == e.message
    ensures Messages(stream + Frame(Packet(e.opcode, body))) == Some(Messages(stream).value + [e])
  {
    var p := Packet(e.opcode, body);
    ParseAppend(stream, p);
    assert Opened(Parse(stream).value + [p]) == Opened(Parse(stream).value) + [e];
  }

  // The builder for an opcode
  method Build(e: Envelope) returns (p: array<byte>)
    requires Sendable(e)
    ensures fresh(p) && p.Length == ProtoSize(e.opcode) && Decode(e.opcode, p[..]) == e.message
  {
    match e.message
    case Request(pipe, box) => p := RequestProto(e.opcode, pipe, box);
    case Response(code, error) => p := ResponseProto(e.opcode, code, error);
    case ListRequest(pipe) => p := ListBoxesRequestProto(pipe);
    case ListResponse(last, box, size, publishers, subscribers) =>
      p := ListBoxesResponseProto(last, box, size, publishers, subscribers);
  }

  method OpenAll(packets: seq<Packet>) returns (es: seq<Envelope>)
    requires AllProper(packets)
    ensures es == Opened(packets)
  {
    ghost var all := Opened(packets);
    es := [];
    for i := 0 to |packets|
      invariant |es| == i
      invariant forall j :: 0 <= j < i ==> es[j] == all[j]
    {
      assert Proper(packets[i]);
      es := es + [Envelope(packets[i].opcode, Decode(packets[i].opcode, packets[i].body))];
    }
  }

  /** A named pipe: bytes come out in the order they went in. */
  class Pipe {
    var bytes: seq<byte>

    constructor ()
      ensures bytes == []
    {
      bytes := [];
    }

    // send_proto_string, protocols.c:25
    method Send(opcode: byte, proto: array<byte>)
      requires Known(opcode) && proto.Length == ProtoSize(opcode)
      modifies this
      ensures bytes == old(bytes) + [opcode] + proto[..]
      ensures forall packets: seq<Packet> :: old(bytes) == Wire(packets) ==>
                bytes == Wire(packets + [Packet(opcode, proto[..])])
    {
      var size := ProtoSize(opcode) + 1;
      var final := new byte[size];
      final[0] := opcode;
      CopyBytes(final, 1, proto[..]);
      assert final[0] == opcode;
      assert final[..] == Frame(Packet(opcode, proto[..]));
      bytes := bytes + final[..];
      forall packets: seq<Packet> {
        WireAppend(packets, Packet(opcode, proto[..]));
      }
    }

    // read(rx, ..., n), when that many bytes are there
    method Take(n: nat) returns (taken: seq<byte>)
      requires n <= |bytes|
      modifies this
      ensures old(bytes) == taken + bytes && |taken| == n
    {
      taken := bytes[..n];
      bytes := bytes[n..];
    }

    // The loop of the broker, mbroker.c:89-111: everything sent so far, frame by frame
    method ReceiveAll() returns (packets: seq<Packet>)
      requires Parse(bytes).Some?
      modifies this
      ensures bytes == [] && Parse(old(bytes)) == Some(packets)
    {
      packets := [];
      while bytes != []
        invariant Parse(bytes).Some? && Parse(old(bytes)).Some?
        invariant Parse(old(bytes)).value == packets + Parse(bytes).value
        decreases |bytes|
      {
        ghost var before, received := bytes, packets;
        var opcode := Take(1);
        var body := Take(ProtoSize(opcode[0]));
        var p := Packet(opcode[0], body);
        assert before == Frame(p) + bytes;
        ParseFirst(p, bytes);
        packets := packets + [p];
        AppendAfter(received, [p], Parse(bytes).value);
      }
      assert packets + [] == packets;
    }

    // A builder and then send_proto_string: one message more is on its way
    method Post(e: Envelope)
      requires Sendable(e) && Messages(bytes).Some?
      modifies this
      ensures Messages(bytes) == Some(Messages(old(bytes)).value + [e])
    {
      var p := Build(e);
      MessagesAppend(bytes, e, p[..]);
      assert bytes + [e.opcode] + p[..] == bytes + Frame(Packet(e.opcode, p[..]));
      Send(e.opcode, p);
    }

    // The loop of the broker, and what it reads from each struct: exactly the messages that were posted
    method Collect() returns (es: seq<Envelope>)
      requires Messages(bytes).Some?
      modifies this
      ensures bytes == [] && Messages(old(bytes)) == Some(es)
    {
      var packets := ReceiveAll();
      es := OpenAll(packets);
    }
  }
}
