/**
 Messages between the daemon and its client: an opcode, a length in two bytes, a payload
 (common/clientpipe.c:50-81), pulled from a buffer that is filled by reads of any size
 (enforcer/src/ods-enforcer.c:118-181, 312-324).
 */
module Framing {
  import opened Prelude

  const OPC_PROMPT: byte := 3
  const OPC_EXIT: byte := 4
  const PROMPT_FAILED := 300

  datatype Frame = Frame(opcode: byte, payload: seq<byte>)

  predicate Sendable(f: Frame) {
    |f.payload| < 0x1_0000
  }

  function Header(opcode: byte, len: nat): seq<byte>
    requires len < 0x1_0000
  {
    [opcode, len / 256, len % 256]
  }

  /** What `client_msg` writes. */
  function Encode(f: Frame): seq<byte>
    requires Sendable(f)
  {
    Header(f.opcode, |f.payload|) + f.payload
  }

  function EncodeAll(fs: seq<Frame>): seq<byte>
    requires forall i :: 0 <= i < |fs| ==> Sendable(fs[i])
  {
    if fs == [] then [] else Encode(fs[0]) + EncodeAll(fs[1..])
  }

  /** `header`: the opcode, and the length in network order. */
  method WriteHeader(buf: array<byte>, opcode: byte, datalen: nat)
    requires 3 <= buf.Length && datalen < 0x1_0000
    modifies buf
    ensures buf[..3] == Header(opcode, datalen)
    ensures buf[0] == opcode && 256 * (buf[1] as int) + buf[2] as int == datalen
    ensures forall i :: 3 <= i < buf.Length ==> buf[i] == old(buf[i])
  {
    buf[0] := opcode;
    buf[1] := datalen / 256;
    buf[2] := datalen % 256;
  }

  /** `client_msg`, as far as the bytes it writes to the socket. */
  method ClientMsg(f: Frame) returns (written: seq<byte>)
    requires Sendable(f)
    ensures written == Encode(f)
  {
    var ctrl := new byte[3];
    WriteHeader(ctrl, f.opcode, |f.payload|);
    written := ctrl[..] + f.payload;
  }

  /** How a call of `extract_msg` ends: more data is needed, the conversation is over, or the message is malformed. */
  datatype Status = More | Exit(code: int) | Malformed

  datatype Result = Result(delivered: seq<Frame>, rest: seq<byte>, status: Status)

  function Length(buf: seq<byte>): nat
    requires |buf| >= 3
  {
    256 * (buf[1] as int) + buf[2] as int
  }

  /** The value of a `char` when it is converted to `int`. */
  function Signed(b: byte): (n: int)
    ensures -128 <= n < 128 && (n == b || n == b - 256)
  {
    if b < 128 then b else b - 256
  }

  /** What `extract_msg` does with the bytes in a buffer of the given capacity. */
  function Extract(buf: seq<byte>, capacity: nat, promptOk: bool): Result
    decreases |buf|
  {
    if |buf| < 3 then Result([], buf, More)
    else
      var n := Length(buf);
      if n + 3 <= |buf| then
        var f, rest := Frame(buf[0], buf[3..n + 3]), buf[n + 3..];
        if f.opcode == OPC_EXIT then
          if n != 1 then Result([], rest, Malformed)
          else Result([], rest, Exit(Signed(if |rest| > 3 then rest[3] else f.payload[0])))
        else if f.opcode == OPC_PROMPT && !promptOk then Result([f], rest, Exit(PROMPT_FAILED))
        else
          var r := Extract(rest, capacity, promptOk);
          r.(delivered := [f] + r.delivered)
      else if n + 3 > capacity then Result([], Header(buf[0], n - (|buf| - 3)), More)
      else Result([], buf, More)
  }

  /** `memmove` of `n` bytes to the front of the buffer. */
  method MoveDown(buf: array<byte>, from: nat, n: nat)
    requires from + n <= buf.Length
    modifies buf
    ensures buf[..n] == old(buf[from..from + n])
    ensures forall i :: n <= i < buf.Length ==> buf[i] == old(buf[i])
  {
    for i := 0 to n
      invariant forall j :: 0 <= j < i ==> buf[j] == old(buf[from + j])
      invariant forall j :: i <= j < buf.Length ==> buf[j] == old(buf[j])
    {
      buf[i] := buf[from + i];
    }
  }

  /** Discards the part of an oversize message that was received: only the header stays, for what is still to come. */
  method Shorten(buf: array<byte>, datalen: nat)
    requires 3 <= buf.Length && datalen < 0x1_0000
    modifies buf
    ensures buf[..3] == Header(old(buf[0]), datalen)
    ensures buf[0] == old(buf[0]) && 256 * (buf[1] as int) + buf[2] as int == datalen
  {
    buf[1] := datalen / 256;
    buf[2] := datalen % 256;
  }

  /** The messages delivered so far, followed by those that a further call would deliver. */
  ghost predicate Completes(delivered: seq<Frame>, r: Result, whole: Result) {
    whole == r.(delivered := delivered + r.delivered)
  }

  lemma ExtractOne(buf: seq<byte>, capacity: nat, delivered: seq<Frame>, whole: Result, promptOk: bool)
    requires |buf| >= 3 && Length(buf) + 3 <= |buf| && buf[0] != OPC_EXIT && (buf[0] == OPC_PROMPT ==> promptOk)
    requires Completes(delivered, Extract(buf, capacity, promptOk), whole)
    ensures Completes(delivered + [Frame(buf[0], buf[3..Length(buf) + 3])],
                      Extract(buf[Length(buf) + 3..], capacity, promptOk), whole)
  {
    var f, r := Frame(buf[0], buf[3..Length(buf) + 3]), Extract(buf[Length(buf) + 3..], capacity, promptOk);
    assert delivered + ([f] + r.delivered) == delivered + [f] + r.delivered;
  }

  lemma LengthAt(buf: seq<byte>)
    requires |buf| >= 3
    ensures Length(buf) == 256 * (buf[1] as int) + buf[2] as int && 0 <= Length(buf) < 0x1_0000
  {
  }

  /** The ways in which a call ends. */
  lemma ExtractEnds(buf: seq<byte>, capacity: nat, promptOk: bool)
    ensures |buf| < 3 ==> Extract(buf, capacity, promptOk) == Result([], buf, More)
    ensures |buf| >= 3 && Length(buf) + 3 > |buf| ==>
              Extract(buf, capacity, promptOk) ==
              Result([], if Length(buf) + 3 > capacity then Header(buf[0], Length(buf) - (|buf| - 3)) else buf, More)
    ensures |buf| >= 3 && Length(buf) + 3 <= |buf| && buf[0] == OPC_EXIT ==>
              var rest := buf[Length(buf) + 3..];
              Extract(buf, capacity, promptOk) ==
              Result([], rest, if Length(buf) != 1 then Malformed
                               else Exit(Signed(if |rest| > 3 then rest[3] else buf[3])))
    ensures |buf| >= 3 && Length(buf) + 3 <= |buf| && buf[0] == OPC_PROMPT && !promptOk ==>
              Extract(buf, capacity, promptOk) ==
              Result([Frame(buf[0], buf[3..Length(buf) + 3])], buf[Length(buf) + 3..], Exit(PROMPT_FAILED))
  {
  }

  /** `extract_msg`: consumes the complete messages in the first `pos` bytes, in place. */
  method ExtractMsg(buf: array<byte>, pos: nat, promptOk: bool)
      returns (delivered: seq<Frame>, pos': nat, status: Status)
    requires pos <= buf.Length && 4 <= buf.Length
    modifies buf
    ensures pos' <= buf.Length
    ensures Result(delivered, buf[..pos'], status) == Extract(old(buf[..pos]), buf.Length, promptOk)
  {
    hide Extract, Length, Header, Signed;
    delivered, pos' := [], pos;
    ghost var whole := Extract(buf[..pos], buf.Length, promptOk);
    while true
      invariant pos' <= pos
      invariant Completes(delivered, Extract(buf[..pos'], buf.Length, promptOk), whole)
      decreases pos'
    {
      ghost var before := buf[..pos'];
      ExtractEnds(before, buf.Length, promptOk);
      if pos' < 3 { return delivered, pos', More; }
      var opc, datalen := buf[0], 256 * (buf[1] as int) + buf[2] as int;
      LengthAt(before);
      if datalen + 3 <= pos' {
        var data := buf[3..datalen + 3];
        assert forall i :: 0 <= i < datalen ==> data[i] == before[3..datalen + 3][i];
        assert before[3..datalen + 3] == data;
        pos' := pos' - (datalen + 3);
        MoveDown(buf, datalen + 3, pos');
        assert buf[..pos'] == before[datalen + 3..];
        if opc == OPC_EXIT {
          if datalen != 1 { return delivered, pos', Malformed; }
          assert buf[3] == if pos' > 3 then before[datalen + 3..][3] else before[3];
          return delivered, pos', Exit(Signed(buf[3]));
        }
        if opc == OPC_PROMPT && !promptOk { return delivered + [Frame(opc, data)], pos', Exit(PROMPT_FAILED); }
        ExtractOne(before, buf.Length, delivered, whole, promptOk);
        delivered := delivered + [Frame(opc, data)];
      } else if datalen + 3 > buf.Length {
        Shorten(buf, datalen - (pos' - 3));
        return delivered, 3, More;
      } else {
        return delivered, pos', More;
      }
    }
  }

  /** One read of the client: the bytes go behind those that wait in the buffer, and complete messages are taken out. */
  method Receive(buf: array<byte>, pos: nat, chunk: seq<byte>, promptOk: bool)
    returns (delivered: seq<Frame>, pos': nat, status: Status)
    requires pos + |chunk| <= buf.Length && 4 <= buf.Length
    modifies buf
    ensures pos' <= buf.Length
    ensures Result(delivered, buf[..pos'], status) == Extract(old(buf[..pos]) + chunk, buf.Length, promptOk)
  {
    for i := 0 to |chunk|
      invariant buf[..pos] == old(buf[..pos]) && buf[pos..pos + i] == chunk[..i]
    {
      buf[pos + i] := chunk[i];
      assert buf[pos..pos + i + 1] == buf[pos..pos + i] + [chunk[i]];
    }
    assert buf[..pos + |chunk|] == old(buf[..pos]) + chunk;
    delivered, pos', status := ExtractMsg(buf, pos + |chunk|, promptOk);
  }

  // ----- the stream of messages does not depend on how it is cut into reads -----

  /** What the client makes of a message: all of it if it fits the buffer, otherwise some end of it. */
  ghost predicate Conveys(got: Frame, sent: Frame, capacity: nat) {
    && got.opcode == sent.opcode
    && (if |sent.payload| + 3 <= capacity then got.payload == sent.payload
        else got.payload != [] && Ends(got.payload, sent.payload))
  }

  ghost predicate Ends(t: seq<byte>, s: seq<byte>) {
    |t| <= |s| && s[|s| - |t|..] == t
  }

  ghost predicate ConveysAll(got: seq<Frame>, sent: seq<Frame>, capacity: nat) {
    |got| == |sent| && forall i :: 0 <= i < |got| ==> Conveys(got[i], sent[i], capacity)
  }

  ghost predicate Ordinary(fs: seq<Frame>) {
    forall i :: 0 <= i < |fs| ==> Sendable(fs[i]) && fs[i].opcode != OPC_EXIT
  }

  /** Messages of which only the last may be an EXIT, with its code. */
  ghost predicate Conversation(fs: seq<Frame>) {
    forall i :: 0 <= i < |fs| ==>
        Sendable(fs[i]) && (fs[i].opcode == OPC_EXIT ==> i == |fs| - 1 && |fs[i].payload| == 1)
  }

  lemma ConveysTransitive(a: seq<Frame>, b: seq<Frame>, c: seq<Frame>, capacity: nat)
    requires ConveysAll(a, b, capacity) && ConveysAll(b, c, capacity)
    ensures ConveysAll(a, c, capacity)
  {
    forall i | 0 <= i < |a| ensures Conveys(a[i], c[i], capacity) {
      assert Conveys(a[i], b[i], capacity) && Conveys(b[i], c[i], capacity);
      if |c[i].payload| + 3 > capacity && a[i].payload != b[i].payload {
        var x, y, z := a[i].payload, b[i].payload, c[i].payload;
        assert z[|z| - |x|..] == z[|z| - |y|..][|y| - |x|..];
      }
    }
  }

  lemma Compose(done: seq<Frame>, got: seq<Frame>, later: seq<Frame>, pending: seq<Frame>, sent: seq<Frame>,
      capacity: nat)
    requires ConveysAll(got + later, pending, capacity) && ConveysAll(done + pending, sent, capacity) && 4 <= capacity
    ensures ConveysAll(done + got + later, sent, capacity)
  {
    assert done + got + later == done + (got + later);
    forall i | 0 <= i < |done + (got + later)|
      ensures Conveys((done + (got + later))[i], (done + pending)[i], capacity)
    {
    }
    ConveysTransitive(done + (got + later), done + pending, sent, capacity);
  }

  /** The header at the front of the buffer is that of the first message still to come. */
  lemma FirstHeader(buf: seq<byte>, rest: seq<byte>, pending: seq<Frame>)
    requires Conversation(pending) && buf + rest == EncodeAll(pending) && |buf| >= 3
    ensures pending != [] && buf[0] == pending[0].opcode && Length(buf) == |pending[0].payload|
    ensures buf[3..] + rest == pending[0].payload + EncodeAll(pending[1..])
  {
    var all, f := buf + rest, pending[0];
    var h, tail := Header(f.opcode, |f.payload|), f.payload + EncodeAll(pending[1..]);
    assert all == h + tail by { assert h + f.payload + EncodeAll(pending[1..]) == h + tail; }
    assert all[..3] == h && all[..3] == buf[..3];
    assert buf[0] == h[0] && buf[1] == h[1] && buf[2] == h[2];
    assert all[3..] == buf[3..] + rest && all[3..] == tail;
  }

  /** The first message is complete: it is delivered as it was sent. */
  lemma FirstComplete(buf: seq<byte>, rest: seq<byte>, pending: seq<Frame>)
    requires Conversation(pending) && buf + rest == EncodeAll(pending) && |buf| >= 3 && Length(buf) + 3 <= |buf|
    ensures pending != [] && Frame(buf[0], buf[3..Length(buf) + 3]) == pending[0]
    ensures buf[Length(buf) + 3..] + rest == EncodeAll(pending[1..])
  {
    FirstHeader(buf, rest, pending);
    var f, n, tail := pending[0], Length(buf), EncodeAll(pending[1..]);
    assert (buf[3..] + rest)[..n] == buf[3..n + 3] && (f.payload + tail)[..n] == f.payload;
    assert (buf[3..] + rest)[n..] == buf[n + 3..] + rest && (f.payload + tail)[n..] == tail;
  }

  /** The first message cannot fit: after the cut the stream is the same, but for the start of that message. */
  lemma FirstTruncated(buf: seq<byte>, rest: seq<byte>, pending: seq<Frame>) returns (later: seq<Frame>)
    requires Conversation(pending) && buf + rest == EncodeAll(pending) && |buf| >= 3 && Length(buf) + 3 > |buf|
    ensures rest != [] && pending != [] && Conversation(later)
    ensures Header(buf[0], Length(buf) - (|buf| - 3)) + rest == EncodeAll(later)
    ensures |later| == |pending| && later[1..] == pending[1..] && later[0].opcode == pending[0].opcode
    ensures later[0].payload != [] && Ends(later[0].payload, pending[0].payload)
  {
    FirstHeader(buf, rest, pending);
    var f, cut, tail := pending[0], |buf| - 3, EncodeAll(pending[1..]);
    var g := Frame(f.opcode, f.payload[cut..]);
    later := [g] + pending[1..];
    assert (buf[3..] + rest)[cut..] == rest && (f.payload + tail)[cut..] == g.payload + tail;
    assert later[1..] == pending[1..];
    assert EncodeAll(later) == Header(g.opcode, |g.payload|) + (g.payload + tail);
  }

  lemma SomethingToRead(fs: seq<Frame>)
    requires Conversation(fs)
    ensures fs == [] <==> EncodeAll(fs) == []
    ensures fs != [] ==> |EncodeAll(fs)| >= 3
  {
  }

  lemma ExtractFirst(buf: seq<byte>, capacity: nat)
    requires |buf| >= 3 && Length(buf) + 3 <= |buf| && buf[0] != OPC_EXIT
    ensures var r := Extract(buf[Length(buf) + 3..], capacity, true);
            Extract(buf, capacity, true) == r.(delivered := [Frame(buf[0], buf[3..Length(buf) + 3])] + r.delivered)
  {
  }

  lemma ConveysFirst(f: Frame, got: seq<Frame>, sent: seq<Frame>, capacity: nat)
    requires ConveysAll(got, sent, capacity) && 4 <= capacity
    ensures ConveysAll([f] + got, [f] + sent, capacity)
  {
    forall i | 0 <= i < |got| + 1 ensures Conveys(([f] + got)[i], ([f] + sent)[i], capacity) {
      if i > 0 { assert Conveys(got[i - 1], sent[i - 1], capacity); }
    }
  }

  lemma ConveysItself(fs: seq<Frame>, capacity: nat)
    requires 4 <= capacity
    ensures ConveysAll([] + fs, fs, capacity)
  {
  }

  /** The first message is incomplete: the extractor waits, or cuts it if it cannot fit. */
  lemma FirstIncomplete(buf: seq<byte>, rest: seq<byte>, pending: seq<Frame>, capacity: nat) returns (later: seq<Frame>)
    requires Conversation(pending) && buf + rest == EncodeAll(pending) && 3 <= |buf| <= capacity && 4 <= capacity
    requires Length(buf) + 3 > |buf|
    ensures rest != [] && Conversation(later) && Extract(buf, capacity, true).rest + rest == EncodeAll(later)
    ensures ConveysAll(Extract(buf, capacity, true).delivered + later, pending, capacity)
    ensures |Extract(buf, capacity, true).rest| < capacity && Extract(buf, capacity, true).status == More
  {
    hide Extract, EncodeAll;
    ExtractEnds(buf, capacity, true);
    later := FirstTruncated(buf, rest, pending);
    FirstHeader(buf, rest, pending);
    if Length(buf) + 3 <= capacity {
      later := pending;
      ConveysItself(pending, capacity);
    } else {
      assert forall i :: 1 <= i < |later| ==> later[i] == later[1..][i - 1] && pending[i] == pending[1..][i - 1];
      assert [] + later == later;
    }
  }

  /**
   One call of the extractor, when the buffer and the bytes still to be read are the messages
   `pending`: it delivers some of them, and the buffer and the bytes to be read are the others.
   */
  lemma {:induction false} ExtractKeepsStream(buf: seq<byte>, rest: seq<byte>, pending: seq<Frame>, capacity: nat)
      returns (later: seq<Frame>)
    requires Conversation(pending) && (rest == [] ==> Ordinary(pending))
    requires buf + rest == EncodeAll(pending) && |buf| <= capacity && 4 <= capacity
    ensures Conversation(later) && Extract(buf, capacity, true).rest + rest == EncodeAll(later)
    ensures ConveysAll(Extract(buf, capacity, true).delivered + later, pending, capacity)
    ensures |Extract(buf, capacity, true).rest| < capacity && Extract(buf, capacity, true).status == More
    ensures rest == [] ==> later == []
    decreases |buf|
  {
    hide Extract, Length, EncodeAll, Conveys;
    if |buf| < 3 {
      ExtractEnds(buf, capacity, true);
      later := pending;
      SomethingToRead(pending);
      ConveysItself(pending, capacity);
    } else if Length(buf) + 3 <= |buf| {
      FirstComplete(buf, rest, pending);
      SomethingToRead(pending[1..]);
      var n := Length(buf);
      later := ExtractKeepsStream(buf[n + 3..], rest, pending[1..], capacity);
      ExtractFirst(buf, capacity);
      var inner := Extract(buf[n + 3..], capacity, true).delivered;
      assert Extract(buf, capacity, true).delivered + later == [pending[0]] + (inner + later);
      ConveysFirst(pending[0], inner + later, pending[1..], capacity);
      assert [pending[0]] + pending[1..] == pending;
    } else {
      later := FirstIncomplete(buf, rest, pending, capacity);
    }
  }

  // ----- reads -----

  function Concat(chunks: seq<seq<byte>>): seq<byte> {
    if chunks == [] then [] else Concat(chunks[..|chunks| - 1]) + chunks[|chunks| - 1]
  }

  /** The messages delivered and the buffer left after the given reads. */
  function Received(chunks: seq<seq<byte>>, capacity: nat): Result {
    if chunks == [] then Result([], [], More)
    else
      var before := Received(chunks[..|chunks| - 1], capacity);
      var r := Extract(before.rest + chunks[|chunks| - 1], capacity, true);
      r.(delivered := before.delivered + r.delivered)
  }

  /** Every read asks for no more than the free space of the buffer. */
  ghost predicate Readable(chunks: seq<seq<byte>>, capacity: nat) {
    chunks != [] ==>
      && Readable(chunks[..|chunks| - 1], capacity)
      && |Received(chunks[..|chunks| - 1], capacity).rest| + |chunks[|chunks| - 1]| <= capacity
  }

  lemma {:induction false} ReadsKeepStream(chunks: seq<seq<byte>>, rest: seq<byte>, sent: seq<Frame>, capacity: nat)
      returns (later: seq<Frame>)
    requires Conversation(sent) && (rest == [] ==> Ordinary(sent)) && 4 <= capacity
    requires Readable(chunks, capacity) && Concat(chunks) + rest == EncodeAll(sent)
    ensures Conversation(later) && (Ordinary(sent) ==> Ordinary(later)) &&
            Received(chunks, capacity).rest + rest == EncodeAll(later)
    ensures ConveysAll(Received(chunks, capacity).delivered + later, sent, capacity)
    ensures |Received(chunks, capacity).rest| < capacity && Received(chunks, capacity).status == More
    ensures rest == [] && chunks != [] ==> later == []
  {
    if chunks == [] {
      later := sent;
      assert rest == EncodeAll(sent);
    } else {
      var n := |chunks| - 1;
      var chunk, before := chunks[n], Received(chunks[..n], capacity);
      Associative(Concat(chunks[..n]), chunk, rest);
      var pending := ReadsKeepStream(chunks[..n], chunk + rest, sent, capacity);
      Associative(before.rest, chunk, rest);
      later := ExtractKeepsStream(before.rest + chunk, rest, pending, capacity);
      Compose(before.delivered, Extract(before.rest + chunk, capacity, true).delivered, later, pending, sent, capacity);
      SameOpcodes(Received(chunks, capacity).delivered, later, sent, capacity);
    }
  }

  lemma SameOpcodes(done: seq<Frame>, later: seq<Frame>, sent: seq<Frame>, capacity: nat)
    requires ConveysAll(done + later, sent, capacity) && Conversation(later)
    ensures Ordinary(sent) ==> Ordinary(later)
  {
    forall i | 0 <= i < |later| && Ordinary(sent) ensures later[i].opcode != OPC_EXIT {
      assert Conveys((done + later)[|done| + i], sent[|done| + i], capacity);
    }
  }

  lemma Associative(a: seq<byte>, b: seq<byte>, c: seq<byte>)
    ensures a + b + c == a + (b + c)
  {
  }

  /**
   However the bytes of a list of messages are cut into reads, the client delivers the same
   messages in the same order: whole if they fit the buffer, otherwise a non-empty end. It never
   waits for more data with a full buffer, and nothing is left when all bytes are read.
   */
  lemma ChunkingIsIrrelevant(chunks: seq<seq<byte>>, sent: seq<Frame>, capacity: nat)
    requires Ordinary(sent) && 4 <= capacity && Readable(chunks, capacity) && Concat(chunks) == EncodeAll(sent)
    ensures ConveysAll(Received(chunks, capacity).delivered, sent, capacity)
    ensures Received(chunks, capacity).rest == []
    ensures forall i :: 0 <= i <= |chunks| ==> |Received(chunks[..i], capacity).rest| < capacity
  {
    assert Concat(chunks) + [] == EncodeAll(sent);
    var later := ReadsKeepStream(chunks, [], sent, capacity);
    assert sent != [] ==> |EncodeAll(sent)| >= 3;
    assert Received(chunks, capacity).delivered + [] == Received(chunks, capacity).delivered;
    forall i | 0 <= i <= |chunks| ensures |Received(chunks[..i], capacity).rest| < capacity {
      FreeSpace(chunks, i, sent, capacity);
    }
  }

  lemma {:induction false} FreeSpace(chunks: seq<seq<byte>>, i: nat, sent: seq<Frame>, capacity: nat)
    requires Ordinary(sent) && 4 <= capacity && Readable(chunks, capacity) && i <= |chunks|
    requires Concat(chunks) <= EncodeAll(sent)
    ensures |Received(chunks[..i], capacity).rest| < capacity
    decreases |chunks|
  {
    if i == |chunks| {
      assert chunks[..i] == chunks;
      var all := EncodeAll(sent);
      assert Concat(chunks) + all[|Concat(chunks)|..] == all;
      var later := ReadsKeepStream(chunks, all[|Concat(chunks)|..], sent, capacity);
    } else {
      var n := |chunks| - 1;
      assert chunks[..n][..i] == chunks[..i] && Concat(chunks[..n]) <= Concat(chunks);
      FreeSpace(chunks[..n], i, sent, capacity);
    }
  }

  // ----- the end of a conversation -----

  function ExitFrame(code: byte): Frame { Frame(OPC_EXIT, [code]) }

  /** A buffer that holds the rest of a conversation, up to its EXIT: everything is delivered and the code is right. */
  lemma {:induction false} ExtractToExit(fs: seq<Frame>, code: byte, capacity: nat)
    requires Ordinary(fs)
    ensures Extract(EncodeAll(fs + [ExitFrame(code)]), capacity, true) == Result(fs, [], Exit(Signed(code)))
  {
    var all := fs + [ExitFrame(code)];
    var buf := EncodeAll(all);
    assert buf + [] == buf;
    FirstHeader(buf, [], all);
    FirstComplete(buf, [], all);
    if fs == [] {
      assert all[1..] == [] && buf[4..] + [] == [];
    } else {
      assert all[1..] == fs[1..] + [ExitFrame(code)] && fs == [fs[0]] + fs[1..];
      assert buf[Length(buf) + 3..] + [] == buf[Length(buf) + 3..];
      ExtractToExit(fs[1..], code, capacity);
    }
  }

  lemma EndsWithExit(done: seq<Frame>, pending: seq<Frame>, sent: seq<Frame>, code: byte, capacity: nat)
    requires ConveysAll(done + pending, sent + [ExitFrame(code)], capacity) && Conversation(pending)
    requires 4 <= capacity && pending != []
    ensures var n := |pending| - 1;
            && pending == pending[..n] + [ExitFrame(code)] && Ordinary(pending[..n])
            && ConveysAll(done + pending[..n], sent, capacity)
  {
    var n := |pending| - 1;
    assert Conveys((done + pending)[|done| + n], (sent + [ExitFrame(code)])[|sent|], capacity);
    forall i | 0 <= i < |done| + n ensures Conveys((done + pending[..n])[i], sent[i], capacity) {
      assert Conveys((done + pending)[i], (sent + [ExitFrame(code)])[i], capacity);
    }
  }

  /**
   A conversation that ends with an EXIT: however its bytes are cut into reads, the client delivers
   all messages before the EXIT and ends with the code that was sent.
   */
  lemma ConversationEnds(chunks: seq<seq<byte>>, sent: seq<Frame>, code: byte, capacity: nat)
    requires Ordinary(sent) && 4 <= capacity && Readable(chunks, capacity)
    requires Concat(chunks) == EncodeAll(sent + [ExitFrame(code)]) && chunks != [] && chunks[|chunks| - 1] != []
    ensures var r := Received(chunks, capacity);
            ConveysAll(r.delivered, sent, capacity) && r.status == Exit(Signed(code)) && r.rest == []
    ensures forall i :: 0 <= i < |chunks| ==> Received(chunks[..i], capacity).status == More
  {
    var n := |chunks| - 1;
    var before, chunk := Received(chunks[..n], capacity), chunks[n];
    var pending := ReadsKeepStream(chunks[..n], chunk, sent + [ExitFrame(code)], capacity);
    assert pending != [];
    EndsWithExit(before.delivered, pending, sent, code, capacity);
    ExtractToExit(pending[..|pending| - 1], code, capacity);
    forall i | 0 <= i < |chunks| ensures Received(chunks[..i], capacity).status == More {
      StillOpen(chunks, i, sent + [ExitFrame(code)], capacity);
    }
  }

  lemma {:induction false} StillOpen(chunks: seq<seq<byte>>, i: nat, sent: seq<Frame>, capacity: nat)
    requires Conversation(sent) && 4 <= capacity && Readable(chunks, capacity) && i < |chunks|
    requires Concat(chunks) <= EncodeAll(sent) && Concat(chunks[..|chunks| - 1]) != EncodeAll(sent)
    ensures Received(chunks[..i], capacity).status == More
    decreases |chunks|
  {
    var n := |chunks| - 1;
    var all, read := EncodeAll(sent), Concat(chunks[..n]);
    assert read + all[|read|..] == all;
    if i == n {
      var later := ReadsKeepStream(chunks[..n], all[|read|..], sent, capacity);
    } else {
      var before := chunks[..n];
      assert before[..i] == chunks[..i] && Concat(before[..n - 1]) <= read;
      StillOpen(before, i, sent, capacity);
    }
  }

  /**
   The code of an EXIT message is read after the buffer was shifted: it is right if and only if at most three bytes
   follow, or the fourth one is the same.
   */
  lemma ExitCodeIsExact(code: byte, rest: seq<byte>, capacity: nat, promptOk: bool)
    ensures Extract(Encode(Frame(OPC_EXIT, [code])) + rest, capacity, promptOk).status == Exit(Signed(code))
            <==> |rest| <= 3 || rest[3] == code
  {
    var buf := Encode(Frame(OPC_EXIT, [code])) + rest;
    assert buf[0] == OPC_EXIT && Length(buf) == 1 && buf[3..4] == [code] && buf[4..] == rest;
  }

  /** An EXIT with code 0 and four bytes behind it: the client ends with the fourth of them. */
  lemma ExitCodeIsLost(capacity: nat)
    ensures Extract(Encode(ExitFrame(0)) + [1, 0, 1, 65], capacity, true).status == Exit(65)
  {
    var buf := Encode(ExitFrame(0)) + [1, 0, 1, 65];
    assert buf[0] == OPC_EXIT && Length(buf) == 1 && buf[4..] == [1, 0, 1, 65];
  }

  /** The bytes of a message: its opcode, the length with the high byte first, and the payload. */
  lemma EncodeLayout(f: Frame)
    requires Sendable(f)
    ensures var e := Encode(f);
            && |e| == |f.payload| + 3 && e[0] == f.opcode && 256 * (e[1] as int) + e[2] as int == |f.payload|
            && e[3..] == f.payload
  {
  }

  /** A prompt whose answer cannot be had ends the conversation with code 300, behind the messages before it. */
  lemma PromptFails(f: Frame, rest: seq<byte>, capacity: nat)
    requires Sendable(f) && f.opcode == 3
    ensures Extract(Encode(f) + rest, capacity, false) == Result([f], rest, Exit(300))
  {
    var buf := Encode(f) + rest;
    assert buf[0] == 3 && Length(buf) == |f.payload| && buf[3..Length(buf) + 3] == f.payload;
    assert buf[Length(buf) + 3..] == rest;
  }

  /** An EXIT has exactly one byte. */
  lemma ExitIsChecked(f: Frame, rest: seq<byte>, capacity: nat, promptOk: bool)
    requires Sendable(f) && f.opcode == 4
    ensures Extract(Encode(f) + rest, capacity, promptOk).status == Malformed <==> |f.payload| != 1
  {
    var buf := Encode(f) + rest;
    assert buf[0] == 4 && Length(buf) == |f.payload|;
  }
}
