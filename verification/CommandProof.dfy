/** The transfer commands as commands of the dispatcher, on every port: what they do in sequential terms, and that
    streams of them are carried out as the list of their commands, though DAP_Transfer appends to the buffer
    the next command is taken from. */
module CommandProof {
  import opened Bits
  import opened DebugPort
  import opened RingBuffer
  import opened Status
  import opened TransferSpec
  import opened TransferProof
  import opened FramingProof
  import opened OperandProof
  import opened WillingProof
  import opened ReportProof
  import opened BlockSpec
  import opened CommandSpec
  import opened Dispatcher
  import opened DispatchProof
  import AckProof
  import BlockFraming

  /** A response that has just been reset takes the report of a command if it has the space. */
  lemma ReservedIff(response: Ring)
    requires response.Valid() && response.got == 0
    ensures Reserved(response).Some? <==> |response.items| + 3 <= response.cap
    ensures BlockReserved(response).Some? <==> |response.items| + 4 <= response.cap
  {
    if |response.items| < response.cap {
      SmallMod(|response.items|, response.cap);
    }
    if |response.items| + 1 < response.cap {
      SmallMod(|response.items| + 1, response.cap);
    }
    if |response.items| + 2 < response.cap {
      SmallMod(|response.items| + 2, response.cap);
    }
    if |response.items| + 3 < response.cap {
      SmallMod(|response.items| + 3, response.cap);
    }
  }

  /** The command id and the payload the host sends. */
  function TransferFor(index: byte, rs: seq<Request>): (cmd: Command)
    requires |rs| < 0x100
  {
    Command(CMD_TRANSFER, [index, |rs|] + EncodeAll(rs), 4 * NormalReads(rs))
  }

  lemma PayloadSkipped(request: Ring, head: seq<byte>, body: seq<byte>, rest: seq<byte>)
    requires request.items == head + body + rest
    ensures |request.items| >= |head| && request.items[..|head|] == head
    ensures Skip(request, |head|).items == body + rest && Skip(request, |head|).got == request.got + |head|
    ensures forall i :: 0 <= i < |head| ==> request.items[i] == head[i]
  {
  }

  /** In sequential terms: whatever the target does, on a connected port, the command carries out its first n requests
      one at a time, reports n and the acknowledge, puts their words behind the request, and touches no other device; or
      it fails for want of a place for a word. */
  lemma TransferCommandIsSequential(b: Bench, request: Ring, response: Ring, index: byte, rs: seq<Request>,
    rest: seq<byte>)
    returns (n: nat, s1: Ref, out: seq<word>)
    requires request.Valid() && response.Valid() && Detectable(b.c.w) && Chosen(b, index).Some? && |rs| < 0x100
    requires request.items == [index, |rs|] + EncodeAll(rs) + rest
    requires request.got + 2 + |EncodeAll(rs)| <= request.cap && Reserved(response).Some?
    ensures var i := Chosen(b, index).value;
      var dp := b.dps[i];
      var r := TransferCommand(b, request, response);
      match r
      case Fault(_, error) =>
        error == NoBufs && !WordsFit(b.c.port, request.cap, request.got + 2, |request.items| - 2, rs, false)
      case Done(b1, request1, response1) =>
        && n <= |rs| && RunUsed(b.c, Ref(dp.log, dp.readBuf, b.mask, []), rs[..n], false) == Some(s1)
        && b1 == b.(dps := b.dps[i := b1.dps[i]], mask := s1.mask) && |b1.dps| == |b.dps|
        && request1.items == rest + LeAll(out)
        && (out == s1.words || (s1.words != [] && out == s1.words[..|s1.words| - 1]))
        && exists ack: byte ::
          && response1.items == response.items + [CMD_TRANSFER, n, ack]
          && (ack == ACK_OK ==> n == |rs| && out == s1.words)
          && (n == |rs| ==> b1.dps[i].log == s1.log)
  {
    hide Run, WordsFit, EncodeAll, RunUsed, Detectable, Extends, LeAll;
    var i := Chosen(b, index).value;
    var dp := b.dps[i];
    PayloadSkipped(request, [index, |rs|], EncodeAll(rs), rest);
    var e := Start(b, i, |rs|, Skip(request, 2));
    n, s1, out := TransferIsSequential(b.c, e, Ref(dp.log, dp.readBuf, b.mask, []), rs, rest);
    var f := Run(b.c, e);
    if !f.Failed? {
      ReportAt(response.items, n, f.e.ack);
    }
  }

  lemma ReportAt(items: seq<byte>, n: byte, ack: byte)
    ensures TransferReported(items + [CMD_TRANSFER, 0, 0], |items| + 1, n, ack) == items + [CMD_TRANSFER, n, ack]
  {
  }

  /** The third byte of the reply to a DAP_Transfer on a connected port, whatever its bytes are: what the device
      answered the last transaction, plus 16 if the command stopped at a value that does not match. */
  lemma TransferReportsLastAck(b: Bench, request: Ring, response: Ring)
    requires request.Valid() && response.Valid() && |request.items| >= 2
    requires Chosen(b, request.items[0]).Some? && TransferCommand(b, request, response).Done?
    ensures var i := Chosen(b, request.items[0]).value;
      var r := TransferCommand(b, request, response);
      && |r.response.items| == |response.items| + 3 && |r.bench.dps| == |b.dps|
      && var ack, dp, dp1 := r.response.items[|response.items| + 2], b.dps[i], r.bench.dps[i];
        && (dp1.attempts == dp.attempts ==> ack == if request.items[1] == 0 then 0 else ACK_OK)
        && (dp1.attempts > dp.attempts ==>
          ack < 32 && AckProof.Answered(b.c, dp1, if ack < 16 then ack else ack - 16))
  {
    hide Run, AckProof.Answered, Reserved, Chosen;
    var e := Start(b, Chosen(b, request.items[0]).value, request.items[1], Skip(request, 2));
    ChosenPort(b, request.items[0]);
    AckProof.ReportsLastAck(b.c, e);
    ReportAt(response.items, 0, 0);
    ReportsAt(response.items, Run(b.c, e).e.done, Run(b.c, e).e.ack);
  }

  /** The response the command reference and the repository's tests ask for: the words read, behind the report. */
  function Documented(done: nat, ack: nat, words: seq<word>): (bs: seq<byte>) {
    [CMD_TRANSFER, done % 0x100, ack % 0x100] + LeAll(words)
  }

  /** The command succeeds, and the words it has put out are in its response as documented. */
  ghost predicate AnsweredAsDocumented(r: Result, response: Ring, rest: seq<byte>) {
    r.Done? && exists done: nat, ack: nat, words: seq<word> ::
      r.request.items == rest + LeAll(words) && r.response.items == response.items + Documented(done, ack, words)
  }

  function Facing(b: Bench, w: World): (r: Bench) {
    b.(c := b.c.(w := w))
  }

  /** The words go behind the request, not into the response. So every target, whatever it acknowledges, lets the
      command be answered as documented, if and only if none of them lets it come to a normal read. */
  lemma DocumentedIffNoRead(b: Bench, request: Ring, response: Ring, index: byte, rs: seq<Request>, rest: seq<byte>)
    requires request.Valid() && response.Valid() && Chosen(b, index).Some? && |rs| < 0x100
    requires request.items == [index, |rs|] + EncodeAll(rs) + rest
    requires request.got + 2 + |EncodeAll(rs)| <= request.cap && Reserved(response).Some?
    ensures !ReadReached(b.c.port, b.mask, Fixed(b.dps[Chosen(b, index).value].readBuf), rs)
      <==> forall w: World :: Detectable(w) ==>
        AnsweredAsDocumented(TransferCommand(Facing(b, w), request, response), response, rest)
  {
    hide Run, EncodeAll, Detectable, ReadReached, TransferCommand, AnsweredAsDocumented, Wordless, Reserved, Chosen;
    PayloadSkipped(request, [index, |rs|], EncodeAll(rs), rest);
    var e := Start(b, Chosen(b, index).value, |rs|, Skip(request, 2));
    ChosenPort(b, index);
    WordlessIffNoRead(b.c.port, b.c.waitRetries, b.c.matchRetries, e, rs, rest);
    forall w: World
      ensures AnsweredAsDocumented(TransferCommand(Facing(b, w), request, response), response, rest)
        <==> Wordless(Run(Config(w, b.c.port, b.c.waitRetries, b.c.matchRetries), e), rest)
    {
      ChosenAgain(b, w, index);
      DocumentedIffWordless(Facing(b, w), request, response, index, rs, rest);
    }
  }

  lemma ChosenPort(b: Bench, index: byte)
    requires Chosen(b, index).Some?
    ensures b.c.port != Disabled
  {
  }

  lemma ChosenAgain(b: Bench, w: World, index: byte)
    ensures Chosen(Facing(b, w), index) == Chosen(b, index)
  {
  }

  lemma DocumentedIffWordless(b: Bench, request: Ring, response: Ring, index: byte, rs: seq<Request>, rest: seq<byte>)
    requires request.Valid() && response.Valid() && Chosen(b, index).Some? && |rs| < 0x100
    requires request.items == [index, |rs|] + EncodeAll(rs) + rest && Reserved(response).Some?
    ensures |request.items| >= 2
    ensures AnsweredAsDocumented(TransferCommand(b, request, response), response, rest)
      <==> Wordless(Run(b.c, Start(b, Chosen(b, index).value, |rs|, Skip(request, 2))), rest)
  {
    hide Run, EncodeAll, LeAll, Reserved;
    PayloadSkipped(request, [index, |rs|], EncodeAll(rs), rest);
    var e := Start(b, Chosen(b, index).value, |rs|, Skip(request, 2));
    var f := Run(b.c, e);
    var r := TransferCommand(b, request, response);
    if f.Going? {
      ReportsAt(response.items, f.e.done, f.e.ack);
      var report := [CMD_TRANSFER, f.e.done % 0x100, f.e.ack % 0x100];
      assert r.response.items == response.items + report;
      if f.e.request.items == rest {
        LeAllEmpty();
        assert rest + [] == rest && report + [] == Documented(f.e.done, f.e.ack, []) && report + [] == report;
      }
      if AnsweredAsDocumented(r, response, rest) {
        var done: nat, ack: nat, words: seq<word> :| r.request.items == rest + LeAll(words)
          && r.response.items == response.items + Documented(done, ack, words);
        LeAllLength(words);
        assert words == [];
        LeAllEmpty();
        assert rest + [] == rest;
      }
    }
  }

  /** The device a command is for: the one the index names on JTAG, the only one on SWD. */
  lemma DeviceChosen(b: Bench, index: nat)
    ensures Chosen(b, index).None? <==> b.c.port == Disabled || b.dps == [] || (b.c.port == Jtag && index >= |b.dps|)
    ensures b.c.port == Jtag && index < |b.dps| ==> Chosen(b, index) == Some(index)
    ensures b.c.port == Swd && b.dps != [] ==> Chosen(b, index) == Some(0)
  {
  }

  /** A port that is not there, or has no such device: all requests are off the buffer, none reported, nothing done. */
  lemma TransferRefusedByPort(b: Bench, request: Ring, response: Ring, index: byte, rs: seq<Request>, rest: seq<byte>)
    requires b.c.port == Disabled || b.dps == [] || (b.c.port == Jtag && index >= |b.dps|)
    requires request.Valid() && response.Valid() && |rs| < 0x100
    requires request.items == [index, |rs|] + EncodeAll(rs) + rest
    requires response.got == 0 && |response.items| + 3 <= response.cap
    ensures TransferCommand(b, request, response) == Result.Done(b,
      request.(got := request.got + 2 + |EncodeAll(rs)|, items := rest),
      response.(items := response.items + [0x05, 0x00, 0x00]))
  {
    hide EncodeAll, Drain, Reserved, Chosen;
    DeviceChosen(b, index);
    PayloadSkipped(request, [index, |rs|], EncodeAll(rs), rest);
    ReservedIff(response);
    DrainEncoded(Skip(request, 2), rs, rest);
    ReportAt(response.items, 0, 0);
  }

  // As handlers of the dispatcher.

  predicate Known(id: byte) {
    id == CMD_TRANSFER_CONFIGURE || id == CMD_TRANSFER || id == CMD_TRANSFER_BLOCK
  }

  function Handle(b: Bench, id: byte, request: Ring, response: Ring): (r: Handled<Bench>) {
    if !request.Valid() || !response.Valid() || !Known(id) then Refused(b, NotSupported)
    else match Answer(b, id, request, response)
    case Done(b1, request1, response1) => Handled(b1, request1, response1)
    case Fault(b1, error) => Refused(b1, error)
  }

  function Answer(b: Bench, id: byte, request: Ring, response: Ring): (r: Result)
    requires request.Valid() && response.Valid()
  {
    if id == CMD_TRANSFER_CONFIGURE then ConfigureCommand(b, request, response)
    else if id == CMD_TRANSFER then TransferCommand(b, request, response)
    else BlockCommand(b, request, response)
  }

  /** Buffers in which every command finds all the room it can want. */
  function Ample(payload: seq<byte>): (request: Ring)
    ensures request.Valid() && request.Room(4 * 0x100)
  {
    Ring(|payload| + 4 * 0x100, 0, payload)
  }

  const EMPTY: Ring := Ring(4 * 0x1_0000 + 4, 0, [])

  /** What a command comes to. */
  function Effects(b: Bench, cmd: Command): (e: Option<Effect<Bench>>) {
    match Answer(b, cmd.id, Ample(cmd.payload), EMPTY)
    case Done(b1, request, response) => Some(Effect(b1, request.items, response.items))
    case Fault(_, _) => None
  }

  /** Every reply is longer than nothing, so the request buffer may do what it likes. */
  lemma HandleOrderly()
    ensures Orderly(Handle)
  {
    hide Handle;
    forall b: Bench, id: byte, request: Ring, response: Ring | request.Valid() && response.Valid()
      ensures InOrder(request, response, Handle(b, id, request, response))
    {
      AnswerOrderly(b, id, request, response);
    }
  }

  lemma AnswerOrderly(b: Bench, id: byte, request: Ring, response: Ring)
    requires request.Valid() && response.Valid()
    ensures InOrder(request, response, Handle(b, id, request, response))
  {
    hide Run, RunBlock, Drain, CancelWords;
  }

  /** The body of DAP_Transfer does the same on any two buffers with the same requests in front and room for the
      words. */
  lemma BodyTwin(b: Bench, index: byte, rs: seq<Request>, req1: Ring, req2: Ring, rest1: seq<byte>, rest2: seq<byte>,
    resp1: Ring, resp2: Ring, at1: nat, at2: nat)
    returns (b1: Bench, put: seq<word>, done: nat, ack: nat)
    requires |rs| < 0x100 && req1.Valid() && req2.Valid() && resp1.Valid() && resp2.Valid()
    requires req1.items == EncodeAll(rs) + rest1 && req1.Room(4 * NormalReads(rs))
    requires req2.items == EncodeAll(rs) + rest2 && req2.Room(4 * 0x100)
    requires at1 + 2 <= |resp1.items| && at2 + 2 <= |resp2.items|
    ensures |put| <= NormalReads(rs)
    ensures TransferBody(b, req1, resp1, at1, index, |rs|)
      == Result.Done(b1, Rest(req1, |EncodeAll(rs)|, rest1, put),
        resp1.(items := TransferReported(resp1.items, at1, done, ack)))
    ensures TransferBody(b, req2, resp2, at2, index, |rs|)
      == Result.Done(b1, Rest(req2, |EncodeAll(rs)|, rest2, put),
        resp2.(items := TransferReported(resp2.items, at2, done, ack)))
  {
    hide Run, WordsFit, EncodeAll, LeAll, Drain, TransferReported, NormalReads;
    b1, put, done, ack := b, [], 0, 0;
    var i := Chosen(b, index);
    if i.None? {
      DrainEncoded(req1, rs, rest1);
      DrainEncoded(req2, rs, rest2);
      LeAllEmpty();
      assert rest1 + [] == rest1 && rest2 + [] == rest2;
    } else {
      var e1, e2 := Start(b, i.value, |rs|, req1), Start(b, i.value, |rs|, req2);
      put := RunTwin(b.c, e1, e2, rs, rest1, rest2);
      RoomFits(b.c.port, req1.cap, req1.got, |req1.items|, rs, false);
      var f := Run(b.c, e1);
      b1, done, ack := b.(dps := b.dps[i.value := f.e.dp], mask := f.e.mask), f.e.done, f.e.ack;
    }
  }

  lemma TransferAnswered(b: Bench, index: byte, rs: seq<Request>, request: Ring, response: Ring, rest: seq<byte>)
    returns (b1: Bench, put: seq<word>, reply: seq<byte>)
    requires |rs| < 0x100 && request.Valid() && response.Valid() && response.got == 0
    requires var cmd := TransferFor(index, rs); request.items == cmd.payload + rest && request.Room(cmd.room)
    requires |response.items| + 3 <= response.cap
    ensures |put| <= NormalReads(rs) && |reply| == 3
    ensures var payload := TransferFor(index, rs).payload;
      && TransferCommand(b, request, response) == Result.Done(b1,
        request.(got := request.got + |payload|, items := rest + LeAll(put)),
        response.(items := response.items + reply))
      && TransferCommand(b, Ample(payload), EMPTY) == Result.Done(b1,
        Ample(payload).(got := |payload|, items := LeAll(put)),
        EMPTY.(items := reply))
  {
    hide TransferBody, EncodeAll, LeAll, Reserved, TransferReported, NormalReads, Skip;
    var cmd := TransferFor(index, rs);
    var head: seq<byte> := [index, |rs|];
    var ample := Ample(cmd.payload);
    PayloadSkipped(request, head, EncodeAll(rs), rest);
    assert ample.items == head + EncodeAll(rs) + [];
    PayloadSkipped(ample, head, EncodeAll(rs), []);
    ReservedIff(response);
    ReservedIff(EMPTY);
    var begun := response.(items := response.items + [CMD_TRANSFER, 0, 0]);
    var clear := EMPTY.(items := EMPTY.items + [CMD_TRANSFER, 0, 0]);
    SkipKeeps(request, 2);
    SkipKeeps(ample, 2);
    var done, ack;
    b1, put, done, ack := BodyTwin(b, index, rs, Skip(request, 2), Skip(ample, 2), rest, [], begun, clear,
      |response.items| + 1, 1);
    assert [] + LeAll(put) == LeAll(put);
    ReportsAt(response.items, done, ack);
    ReportsAt([], done, ack);
    reply := [CMD_TRANSFER, done % 0x100, ack % 0x100];
    assert EMPTY.items + [CMD_TRANSFER, 0, 0] == [] + [CMD_TRANSFER, 0, 0] && [] + reply == reply;
  }

  /** A DAP_Transfer in any state, on any buffers with room for its words: it takes its own bytes, and replies with
      three. */
  lemma TransferDoes(b: Bench, index: byte, rs: seq<Request>, request: Ring, response: Ring, rest: seq<byte>)
    requires |rs| < 0x100 && request.Valid() && response.Valid() && response.got == 0
    requires var cmd := TransferFor(index, rs); request.items == cmd.payload + rest && request.Room(cmd.room)
    ensures var cmd := TransferFor(index, rs);
      Does(Handle(b, cmd.id, request, response), Effects(b, cmd), cmd, request, response, rest)
  {
    hide TransferCommand, EncodeAll, LeAll, NormalReads, Ample, BlockCommand;
    var cmd := TransferFor(index, rs);
    if |response.items| + 3 <= response.cap {
      var b1, put, reply := TransferAnswered(b, index, rs, request, response, rest);
      LeAllLength(put);
    } else {
      var ample := Ample(cmd.payload);
      AmpleItems(cmd.payload);
      NormalReadsAtMost(rs);
      assert cmd.room <= 4 * 0x100;
      var b1, put, reply := TransferAnswered(b, index, rs, ample, EMPTY, []);
      LeAllLength(put);
      TransferRefused(b, request, response);
    }
  }

  lemma AmpleItems(payload: seq<byte>)
    ensures Ample(payload).items == payload + [] && forall n: nat :: n <= 4 * 0x100 ==> Ample(payload).Room(n)
  {
  }

  lemma {:induction false} NormalReadsAtMost(rs: seq<Request>)
    ensures NormalReads(rs) <= |rs|
  {
    if rs != [] {
      NormalReadsAtMost(rs[1..]);
    }
  }

  lemma TransferRefused(b: Bench, request: Ring, response: Ring)
    requires request.Valid() && response.Valid() && response.got == 0 && |response.items| + 3 > response.cap
    ensures TransferCommand(b, request, response) == Fault(b, NoBufs)
  {
    hide Reserved;
    ReservedIff(response);
  }

  lemma SkipKeeps(request: Ring, n: nat)
    requires request.Valid() && n <= |request.items|
    ensures Skip(request, n).Valid() && Skip(request, n).cap == request.cap && Skip(request, n).got == request.got + n
    ensures forall m: nat :: request.Room(m) ==> Skip(request, n).Room(m)
  {
  }

  lemma ReportsAt(items: seq<byte>, done: nat, ack: nat)
    ensures TransferReported(items + [CMD_TRANSFER, 0, 0], |items| + 1, done, ack)
      == items + [CMD_TRANSFER, done % 0x100, ack % 0x100]
  {
  }

  // DAP_TransferBlock.

  /** The words behind the header: those to be written, none for a block that is read. */
  function Body(code: byte, ws: seq<word>): (bs: seq<byte>) {
    if IsRead(code) then [] else LeAll(ws)
  }

  function Header(index: byte, n: nat, code: byte): (bs: seq<byte>)
    requires n < 0x1_0000
    ensures |bs| == 4
  {
    [index] + Le16(n) + [code]
  }

  function BlockFor(index: byte, n: nat, code: byte, ws: seq<word>): (cmd: Command)
    requires n < 0x1_0000
  {
    Command(CMD_TRANSFER_BLOCK, Header(index, n, code) + Body(code, ws), 0)
  }

  lemma HeaderTaken(request: Ring, index: byte, n: nat, code: byte, body: seq<byte>, rest: seq<byte>)
    requires n < 0x1_0000 && request.items == Header(index, n, code) + body + rest
    ensures |request.items| >= 4 && request.items[0] == index && request.items[3] == code
    ensures FromLe16(request.items[1..3]) == n && Skip(request, 4).items == body + rest
  {
    assert request.items[1..3] == Le16(n);
  }

  /** The body of DAP_TransferBlock does the same on any two pairs of buffers with the same words in front, and fails on
      the first exactly when the words read do not fit there. */
  lemma BlockTwin(b: Bench, index: byte, n: nat, code: byte, ws: seq<word>, req1: Ring, req2: Ring,
    rest1: seq<byte>, rest2: seq<byte>, resp1: Ring, resp2: Ring, at1: nat, at2: nat)
    returns (b1: Bench, words: seq<word>, done: nat, ack: nat)
    requires req1.Valid() && req2.Valid() && resp1.Valid() && resp2.Valid() && req1.Room(0) && req2.Room(0)
    requires req1.items == Body(code, ws) + rest1 && req2.items == Body(code, ws) + rest2
    requires !IsRead(code) ==> n == |ws| < 0x4000
    requires at1 + 3 <= |resp1.items| && at2 + 3 <= |resp2.items| && BlockSpec.Fits(resp2, n)
    ensures |resp1.items| + 4 * |words| > resp1.cap ==> BlockBody(b, req1, resp1, at1, index, n, code).Fault?
    ensures |resp1.items| + 4 * |words| <= resp1.cap ==>
      BlockBody(b, req1, resp1, at1, index, n, code) == Result.Done(b1,
        req1.(got := req1.got + |Body(code, ws)|, items := rest1),
        resp1.(items := BlockReported(resp1.items + LeAll(words), at1, done, ack)))
    ensures BlockBody(b, req2, resp2, at2, index, n, code) == Result.Done(b1,
        req2.(got := req2.got + |Body(code, ws)|, items := rest2),
        resp2.(items := BlockReported(resp2.items + LeAll(words), at2, done, ack)))
  {
    hide RunBlock, LeAll, BlockReported, Ring.Room;
    b1, words, done, ack := b, [], 0, 0;
    LeAllEmpty();
    LeAllLength(ws);
    assert resp1.items + [] == resp1.items && resp2.items + [] == resp2.items;
    assert [] + rest1 == rest1 && [] + rest2 == rest2;
    var i := Chosen(b, index);
    if i.None? {
      if !IsRead(code) {
        BlockFraming.CancelAll(req1, n, LeAll(ws), rest1, code);
        BlockFraming.CancelAll(req2, n, LeAll(ws), rest2, code);
      }
    } else {
      var s1 := Block(b.dps[i.value], 0, 0, n, 0, code, req1, resp1);
      var s2 := Block(b.dps[i.value], 0, 0, n, 0, code, req2, resp2);
      if IsRead(code) {
        words := BlockFraming.ReadFraming(b.c, s1, s2);
      } else {
        BlockFraming.WriteFraming(b.c, s1, s2, ws, rest1, rest2);
      }
      var f := RunBlock(b.c, s2);
      b1, done, ack := b.(dps := b.dps[i.value := f.b.dp]), f.b.done, f.b.ack;
    }
  }

  lemma BlockReportsAt(items: seq<byte>, words: seq<byte>, done: nat, ack: nat)
    ensures BlockReported(items + [CMD_TRANSFER_BLOCK, 0, 0, 0] + words, |items| + 1, done, ack)
      == items + ([CMD_TRANSFER_BLOCK] + Le16(done % 0x1_0000) + [ack % 0x100] + words)
  {
    hide Le16;
    var all := items + [CMD_TRANSFER_BLOCK, 0, 0, 0] + words;
    assert all[..|items| + 1] == items + [CMD_TRANSFER_BLOCK] && all[|items| + 4..] == words;
  }

  lemma BlockAnswered(b: Bench, index: byte, n: nat, code: byte, ws: seq<word>, request: Ring, response: Ring,
    rest: seq<byte>)
    returns (b1: Bench, reply: seq<byte>)
    requires n < 0x1_0000 && (!IsRead(code) ==> n == |ws| < 0x4000)
    requires request.Valid() && request.items == BlockFor(index, n, code, ws).payload + rest && request.Room(0)
    requires response.Valid() && response.got == 0 && |response.items| + 4 <= response.cap
    ensures |reply| >= 4
    ensures var payload := BlockFor(index, n, code, ws).payload;
      && (|response.items| + |reply| > response.cap ==> BlockCommand(b, request, response).Fault?)
      && (|response.items| + |reply| <= response.cap ==>
        BlockCommand(b, request, response) == Result.Done(b1,
          request.(got := request.got + |payload|, items := rest),
          response.(items := response.items + reply)))
      && BlockCommand(b, Ample(payload), EMPTY) == Result.Done(b1,
          Ample(payload).(got := |payload|, items := []),
          EMPTY.(items := reply))
  {
    hide BlockBody, LeAll, BlockReserved, BlockReported, Header, Body, Skip, Ring.Room;
    var payload := BlockFor(index, n, code, ws).payload;
    var ample := Ample(payload);
    AmpleItems(payload);
    HeaderTaken(request, index, n, code, Body(code, ws), rest);
    HeaderTaken(ample, index, n, code, Body(code, ws), []);
    SkipKeeps(request, 4);
    SkipKeeps(ample, 4);
    ReservedIff(response);
    ReservedIff(EMPTY);
    var begun := response.(items := response.items + [CMD_TRANSFER_BLOCK, 0, 0, 0]);
    var clear := EMPTY.(items := EMPTY.items + [CMD_TRANSFER_BLOCK, 0, 0, 0]);
    var words, done, ack;
    b1, words, done, ack := BlockTwin(b, index, n, code, ws, Skip(request, 4), Skip(ample, 4), rest, [], begun, clear,
      |response.items| + 1, 1);
    LeAllLength(words);
    BlockReportsAt(response.items, LeAll(words), done, ack);
    BlockReportsAt([], LeAll(words), done, ack);
    reply := [CMD_TRANSFER_BLOCK] + Le16(done % 0x1_0000) + [ack % 0x100] + LeAll(words);
    assert [] + reply == reply && EMPTY.items + [CMD_TRANSFER_BLOCK, 0, 0, 0] == [] + [CMD_TRANSFER_BLOCK, 0, 0, 0];
  }

  lemma BlockRefused(b: Bench, request: Ring, response: Ring)
    requires request.Valid() && response.Valid() && response.got == 0 && |response.items| + 4 > response.cap
    ensures BlockCommand(b, request, response) == Fault(b, NoBufs)
  {
    hide BlockReserved;
    ReservedIff(response);
  }

  /** A complete DAP_TransferBlock in any state: it takes its own bytes, and fails exactly when its reply does not
      fit. */
  lemma BlockDoes(b: Bench, index: byte, n: nat, code: byte, ws: seq<word>, request: Ring, response: Ring,
    rest: seq<byte>)
    requires n < 0x1_0000 && (!IsRead(code) ==> n == |ws|)
    requires request.Valid() && request.items == BlockFor(index, n, code, ws).payload + rest && request.Room(0)
    requires request.cap < 0x1_0000 && response.Valid() && response.got == 0
    ensures var cmd := BlockFor(index, n, code, ws);
      Does(Handle(b, cmd.id, request, response), Effects(b, cmd), cmd, request, response, rest)
  {
    hide BlockCommand, TransferCommand, LeAll, Ample, Header, Le16;
    var cmd := BlockFor(index, n, code, ws);
    LeAllLength(ws);
    assert rest + [] == rest;
    if |response.items| + 4 <= response.cap {
      var b1, reply := BlockAnswered(b, index, n, code, ws, request, response, rest);
    } else {
      AmpleItems(cmd.payload);
      var b1, reply := BlockAnswered(b, index, n, code, ws, Ample(cmd.payload), EMPTY, []);
      BlockRefused(b, request, response);
    }
  }

  /** What a block of count words does to device i, and puts into the reply: the words of the first done reads of the
      register, in order, or the first done words written; done is count exactly under OK, or, for words that are
      written, only then. */
  ghost predicate BlockExact(b: Bench, i: nat, count: nat, code: byte, ws: seq<word>, b1: Bench, done: nat, ack: nat,
    words: seq<word>)
  {
    i < |b.dps| && |b1.dps| == |b.dps| && b1 == b.(dps := b.dps[i := b1.dps[i]]) && done <= count &&
      var a, log, log1 := AccessOf(code, 0), b.dps[i].log, b1.dps[i].log;
      if !IsRead(code) then
        done <= |ws| && words == [] && log1 == log + Writes(code, ws[..done]) && (ack == ACK_OK ==> done == count)
      else if IsRdBuff(a) then
        && words == Repeat(BufferWord(b.c, b.dps[i]), done) && log1 == log
        && (count > 0 ==> (ack == ACK_OK <==> done == count))
      else
        && words == Values(b.c.w, log, a, done)
        && (count > 0 ==> (ack == ACK_OK <==> done == count))
        && (ack == ACK_OK && count > 0 ==> log1 == log + Repeat(a, count))
        && exists m: nat :: m <= done + 2 && log1 == log + Repeat(a, m)
  }

  lemma EmptyBlock(c: Config, s: Block)
    requires c.port != Disabled && Detectable(c.w) && s.Valid() && s.count == s.done == 0 && IsRead(s.code)
    ensures var r, a := RunBlock(c, s), AccessOf(s.code, 0);
      && !r.Broken? && r.b.done == 0 && r.b.response == s.response && r.b.request == s.request
      && (r.b.dp.log == s.dp.log + Repeat(a, 0) || (!IsRdBuff(a) && r.b.dp.log == s.dp.log + Repeat(a, 1)))
  {
    hide Retry, Odd, Le32, AccessOf;
    var a := AccessOf(s.code, 0);
    assert s.dp.log + Repeat(a, 0) == s.dp.log;
    if IsPosted(c.port, s.code) {
      SameRead(s.code, s.data);
      BlockWireOk(c, s, Ref(s.dp.log, s.dp.readBuf, 0, []));
      var log := BlockWire(c, s).dp.log;
      if IsRdBuff(a) {
        assert log == log[..|s.dp.log|] == s.dp.log;
      } else {
        ExtendsRepeat(log, s.dp.log, a, 0);
      }
    }
  }

  lemma AckIsByte(c: Config, s: Block)
    requires c.port != Disabled && s.Valid() && s.done == 0 && s.ack == 0
    ensures var r := RunBlock(c, s);
      !r.Broken? ==>
        && r.b.ack < 0x100 && r.b.dp.attempts >= s.dp.attempts
        && (r.b.dp.attempts == s.dp.attempts ==> r.b.ack == 0 && IsRead(s.code) && s.count == 0)
        && (r.b.dp.attempts > s.dp.attempts ==> AckProof.Answered(c, r.b.dp, r.b.ack))
        && (!IsRead(s.code) ==> r.b.dp.attempts > s.dp.attempts + r.b.done)
  {
    hide BlockWire, WriteLoop, CancelWords;
    if !IsRead(s.code) || s.count > 0 || IsPosted(c.port, s.code) {
      AckProof.BlockReportsLastAck(c, s);
    }
  }

  lemma CountAtMost(c: Config, s: Block)
    requires s.Valid() && !IsRead(s.code)
    ensures RunBlock(c, s).b.count <= s.count
  {
    hide WriteLoop, BlockWire, CancelWords;
    LoopCountAtMost(c, s);
  }

  lemma {:induction false} LoopCountAtMost(c: Config, s: Block)
    requires s.Valid()
    ensures WriteLoop(c, s).b.count <= s.count
    decreases s.count
  {
    hide BlockWire;
    if s.count > 0 && WriteTurn(c, s).Through? {
      LoopCountAtMost(c, WriteTurn(c, s).b);
    }
  }

  lemma RunBlockExact(b: Bench, i: nat, s: Block, ws: seq<word>, rest: seq<byte>)
    returns (words: seq<word>)
    requires b.c.port != Disabled && Detectable(b.c.w) && i < |b.dps| && s.Valid() && s.dp == b.dps[i]
    requires s.done == 0 && s.ack == 0 && s.count < 0x1_0000 && (!IsRead(s.code) ==> s.count == |ws| < 0x4000)
    requires s.request.items == Body(s.code, ws) + rest && s.request.Room(0)
    requires IsRead(s.code) ==> BlockSpec.Fits(s.response, s.count)
    ensures var r := RunBlock(b.c, s);
      && !r.Broken? && r.b.request.items == rest && r.b.response.items == s.response.items + LeAll(words)
      && BlockExact(b, i, s.count, s.code, ws, b.(dps := b.dps[i := r.b.dp]), r.b.done, r.b.ack, words)
  {
    hide RunBlock, LeAll, Detectable, AccessOf, Ring.Room;
    var r := RunBlock(b.c, s);
    LeAllEmpty();
    assert s.response.items + [] == s.response.items;
    if !IsRead(s.code) {
      WriteBlockIsExact(b.c, s, ws, rest);
      CountAtMost(b.c, s);
      words := [];
    } else {
      assert [] + rest == rest;
      if s.count == 0 {
        EmptyBlock(b.c, s);
        words := [];
      } else if IsRdBuff(AccessOf(s.code, 0)) {
        ReadBlockOfBuffer(b.c, s);
        words := Repeat(BufferWord(b.c, s.dp), r.b.done);
      } else {
        ReadBlockIsExact(b.c, s);
        words := Values(b.c.w, s.dp.log, AccessOf(s.code, 0), r.b.done);
      }
    }
  }

  /** DAP_TransferBlock as a whole, on a connected port, with the host's header and, for a write, its words: device i is
      the one of the index, count and code are those of the header; the words are off the request, and the reply
      has the number of them that were done, the acknowledge, and those that were read. */
  lemma BlockCommandIsExact(b: Bench, index: byte, i: nat, n: nat, code: byte, ws: seq<word>, request: Ring,
    response: Ring, rest: seq<byte>)
    returns (b1: Bench, done: nat, ack: byte, words: seq<word>)
    requires Detectable(b.c.w) && n < 0x1_0000 && (!IsRead(code) ==> n == |ws| < 0x4000)
    requires i < |b.dps| && ((b.c.port == Jtag && i == index) || (b.c.port == Swd && i == 0))
    requires request.Valid() && request.Room(0)
    requires request.items == [index, n % 0x100, n / 0x100, code] + (if IsRead(code) then [] else LeAll(ws)) + rest
    requires response.Valid() && response.got == 0
    requires |response.items| + 4 + (if IsRead(code) then 4 * n else 0) <= response.cap
    ensures done <= n && BlockExact(b, i, n, code, ws, b1, done, ack, words)
    ensures var r := BlockCommand(b, request, response);
      && r.Done? && r.bench == b1 && r.request.items == rest
      && r.response.items == response.items + [0x06, done % 0x100, done / 0x100, ack] + LeAll(words)
    ensures b1.dps[i].attempts == b.dps[i].attempts ==> ack == 0 && IsRead(code) && n == 0
    ensures b1.dps[i].attempts > b.dps[i].attempts ==> AckProof.Answered(b.c, b1.dps[i], ack)
    ensures !IsRead(code) ==> b1.dps[i].attempts > b.dps[i].attempts + done
    ensures b1.dps[i].attempts >= b.dps[i].attempts
  {
    hide RunBlock, LeAll, BlockReported, BlockCommand, Ring.Room, BlockExact, Detectable, Body;
    HeaderBytes(index, n, code, ws);
    var s := BlockCommandRuns(b, index, i, n, code, Body(code, ws), request, response, rest);
    words := RunBlockExact(b, i, s, ws, rest);
    var r := RunBlock(b.c, s);
    b1, done, ack := b.(dps := b.dps[i := r.b.dp]), r.b.done, r.b.ack % 0x100;
    AckIsByte(b.c, s);
    DoneAtMost(b, i, n, code, ws, b1, done, ack, words);
    ReportBytes(response.items, done, ack, LeAll(words));
  }

  /** With the header off, it is RunBlock from there on, and the report. */
  lemma BlockCommandRuns(b: Bench, index: byte, i: nat, n: nat, code: byte, body: seq<byte>, request: Ring,
    response: Ring, rest: seq<byte>)
    returns (s: Block)
    requires n < 0x1_0000 && i < |b.dps| && ((b.c.port == Jtag && i == index) || (b.c.port == Swd && i == 0))
    requires request.Valid() && request.Room(0)
    requires request.items == [index, n % 0x100, n / 0x100, code] + body + rest
    requires response.Valid() && response.got == 0 && |response.items| + 4 <= response.cap
    ensures s.Valid() && s.dp == b.dps[i] && s.ack == s.done == 0 && s.count == n && s.code == code
    ensures s.request.items == body + rest && s.request.Room(0)
    ensures s.response == response.(items := response.items + [CMD_TRANSFER_BLOCK, 0, 0, 0])
    ensures var r := RunBlock(b.c, s);
      !r.Broken? && |r.b.response.items| >= |response.items| + 4 ==>
        BlockCommand(b, request, response) == Result.Done(b.(dps := b.dps[i := r.b.dp]), r.b.request,
          r.b.response.(items := BlockReported(r.b.response.items, |response.items| + 1, r.b.done, r.b.ack)))
  {
    hide RunBlock, BlockReserved, BlockReported, Chosen, Header, Skip, Ring.Room;
    DeviceChosen(b, index);
    HeaderBytes(index, n, code, []);
    HeaderTaken(request, index, n, code, body, rest);
    SkipKeeps(request, 4);
    ReservedIff(response);
    s := Block(b.dps[i], 0, 0, n, 0, code, Skip(request, 4), BlockReserved(response).value);
  }

  lemma DoneAtMost(b: Bench, i: nat, count: nat, code: byte, ws: seq<word>, b1: Bench, done: nat, ack: nat,
    words: seq<word>)
    requires BlockExact(b, i, count, code, ws, b1, done, ack, words)
    ensures done <= count
  {
  }

  lemma ReportBytes(items: seq<byte>, done: nat, ack: byte, words: seq<byte>)
    requires done < 0x1_0000
    ensures BlockReported(items + [CMD_TRANSFER_BLOCK, 0, 0, 0] + words, |items| + 1, done, ack)
      == items + [0x06, done % 0x100, done / 0x100, ack] + words
  {
    BlockReportsAt(items, words, done, ack);
  }

  /** The dispatcher's reference has a block come to that. */
  lemma EffectsOfBlock(b: Bench, index: byte, i: nat, n: nat, code: byte, ws: seq<word>)
    returns (b1: Bench, done: nat, ack: byte, words: seq<word>)
    requires Detectable(b.c.w) && n < 0x1_0000 && (!IsRead(code) ==> n == |ws| < 0x4000)
    requires i < |b.dps| && ((b.c.port == Jtag && i == index) || (b.c.port == Swd && i == 0))
    ensures done <= n && BlockExact(b, i, n, code, ws, b1, done, ack, words)
    ensures Effects(b, BlockFor(index, n, code, ws))
      == Some(Effect(b1, [], [0x06, done % 0x100, done / 0x100, ack] + LeAll(words)))
  {
    hide BlockCommand, LeAll, BlockExact, Detectable, Header, Body;
    var payload := BlockFor(index, n, code, ws).payload;
    HeaderBytes(index, n, code, ws);
    assert Ample(payload).items == payload + [];
    assert Ample(payload).Room(0);
    b1, done, ack, words := BlockCommandIsExact(b, index, i, n, code, ws, Ample(payload), EMPTY, []);
    var reply := [0x06, done % 0x100, done / 0x100, ack];
    assert EMPTY.items + reply == reply;
  }

  /** On a port that is not there, or has no such device, nothing is done and none reported. */
  lemma {:induction false} BlockRefusedByPort(b: Bench, index: byte, n: nat, code: byte, ws: seq<word>,
    request: Ring, response: Ring, rest: seq<byte>)
    requires b.c.port == Disabled || b.dps == [] || (b.c.port == Jtag && index >= |b.dps|)
    requires n < 0x1_0000 && (!IsRead(code) ==> n == |ws| < 0x4000)
    requires request.Valid() && request.Room(0)
    requires request.items == [index, n % 0x100, n / 0x100, code] + (if IsRead(code) then [] else LeAll(ws)) + rest
    requires response.Valid() && response.got == 0 && |response.items| + 4 <= response.cap
    ensures BlockCommand(b, request, response) == Result.Done(b,
      request.(got := request.got + 4 + (if IsRead(code) then 0 else 4 * |ws|), items := rest),
      response.(items := response.items + [0x06, 0x00, 0x00, 0x00]))
  {
    hide LeAll, BlockReserved, BlockReported, Chosen, CancelWords, Header, Body, Skip, Ring.Room;
    DeviceChosen(b, index);
    HeaderBytes(index, n, code, ws);
    HeaderTaken(request, index, n, code, Body(code, ws), rest);
    SkipKeeps(request, 4);
    ReservedIff(response);
    BodyCancelled(Skip(request, 4), n, code, ws, rest);
    NothingReported(response.items);
  }

  lemma HeaderBytes(index: byte, n: nat, code: byte, ws: seq<word>)
    requires n < 0x1_0000
    ensures Header(index, n, code) == [index, n % 0x100, n / 0x100, code]
    ensures Body(code, ws) == if IsRead(code) then [] else LeAll(ws)
  {
  }

  lemma NothingReported(items: seq<byte>)
    ensures BlockReported(items + [CMD_TRANSFER_BLOCK, 0, 0, 0], |items| + 1, 0, 0) == items + [0x06, 0x00, 0x00, 0x00]
  {
    BlockReportsAt(items, [], 0, 0);
    assert items + [CMD_TRANSFER_BLOCK, 0, 0, 0] + [] == items + [CMD_TRANSFER_BLOCK, 0, 0, 0];
    assert [CMD_TRANSFER_BLOCK] + Le16(0) + [0] + [] == [0x06, 0x00, 0x00, 0x00];
  }

  lemma BodyCancelled(request: Ring, n: nat, code: byte, ws: seq<word>, rest: seq<byte>)
    requires request.Valid() && request.Room(0) && request.items == Body(code, ws) + rest
    requires !IsRead(code) ==> n == |ws| < 0x4000
    ensures CancelWords(request, n, code)
      == Some(request.(got := request.got + (if IsRead(code) then 0 else 4 * |ws|), items := rest))
  {
    hide LeAll, Ring.Room;
    LeAllLength(ws);
    if IsRead(code) {
      assert [] + rest == rest;
    } else {
      BlockFraming.CancelAll(request, n, LeAll(ws), rest, code);
    }
  }

  // DAP_TransferBlock short of its words.

  /** The words of a request buffer with whole words and less than one behind them, as a loop that wants more of them
      than there are uses them: it is cut with k of them taken, or fails. */
  lemma {:induction false} WriteLoopShort(c: Config, b: Block, ws: seq<word>, tail: seq<byte>)
    requires b.Valid() && b.count > |ws| && |tail| < 4 && b.request.items == LeAll(ws) + tail
    ensures var r := WriteLoop(c, b);
      && !r.Through?
      && (r.Cut? ==>
        var k := b.count - r.b.count;
        && 1 <= k <= |ws| && r.b.code == b.code && r.b.request.cap == b.request.cap
        && r.b.request.items == LeAll(ws[k..]) + tail && r.b.request.got == b.request.got + 4 * k)
    decreases |ws|
  {
    hide LeAll, Le32, FromLe32, BlockWire;
    LeAllLength(ws);
    if ws != [] {
      FirstWord(ws, tail);
      var r := WriteTurn(c, b);
      if r.Through? {
        WriteLoopShort(c, r.b, ws[1..], tail);
        var k := r.b.count - WriteLoop(c, r.b).b.count;
        if WriteLoop(c, r.b).Cut? {
          assert ws[1..][k..] == ws[k + 1..];
        }
      }
    }
  }

  lemma FirstWord(ws: seq<word>, tail: seq<byte>)
    requires ws != []
    ensures |LeAll(ws) + tail| >= 4 && (LeAll(ws) + tail)[4..] == LeAll(ws[1..]) + tail
  {
    assert LeAll(ws) + tail == Le32(ws[0]) + (LeAll(ws[1..]) + tail);
  }

  /** The length of n words in bytes, as the code computes it in 16 bits. */
  function Length16(n: nat): (bytes: nat)
    requires n < 0x1_0000
  {
    4 * n - if n < 0x4000 then 0 else if n < 0x8000 then 0x1_0000 else if n < 0xc000 then 0x2_0000 else 0x3_0000
  }

  lemma LengthWraps(n: nat)
    requires n < 0x1_0000
    ensures Length16(n) == 4 * n % 0x1_0000
  {
  }

  lemma WrapsIff(request: Ring, count: nat, code: byte)
    requires request.Valid() && request.Room(0) && !IsRead(code) && count < 0x1_0000
    requires |request.items| < 4 * count
    ensures CancelWords(request, count, code).Some? <==> Length16(count) <= |request.items|
  {
    hide CancelWords, Length16;
    ShortAcceptedIff(request, count, code);
    LengthWraps(count);
    Wrapped(count);
  }

  /** Taking more words before the cut does not help. */
  lemma WrapsLater(n: nat, bytes: nat, k: nat)
    requires 1 <= k <= n < 0x1_0000 && 4 * k <= bytes < 4 * n && Length16(n - k) <= bytes - 4 * k
    ensures Length16(n - 1) <= bytes - 4
  {
  }

  /** A target that is never ready. */
  const BUSY: World := World(_ => ACK_WAIT, _ => 0, _ => [])

  lemma BusyCuts(c: Config, b: Block, ws: seq<word>, tail: seq<byte>)
    requires c.port != Disabled && c.w == BUSY
    requires b.Valid() && b.count > 0 && ws != [] && b.request.items == LeAll(ws) + tail
    ensures var r := WriteLoop(c, b);
      && r.Cut? && r.b.count == b.count - 1 && r.b.code == b.code && r.b.request.cap == b.request.cap
      && r.b.request.items == LeAll(ws[1..]) + tail && r.b.request.got == b.request.got + 4
  {
    hide LeAll, Le32, FromLe32, Retry;
    FirstWord(ws, tail);
    var b1 := b.(count := b.count - 1, data := FromLe32(b.request.items[..4]),
      request := b.request.(got := b.request.got + 4, items := b.request.items[4..]));
    RetryExactlyOnce(c.w, c.port, b1.dp, b1.code, b1.data, c.waitRetries);
    TransactCounts(c.w, c.port,
      b1.dp.(attempts := Retry(c.w, c.port, b1.dp, b1.code, b1.data, c.waitRetries).dp.attempts - 1), b1.code, b1.data);
  }

  /** A write block short of its words should be an error. On a port that cannot take it it is accepted instead if and
      only if what the length of all words wraps to is there; on a connected port, by some target if and only if that
      holds of all words but the first, which that target refuses. Lengths below 64 KB do not wrap and are not there. */
  lemma ShortBlockAcceptedIff(b: Bench, index: byte, n: nat, code: byte, ws: seq<word>, tail: seq<byte>, request: Ring,
    response: Ring)
    requires n < 0x1_0000 && !IsRead(code) && |tail| < 4 && 4 * |ws| + |tail| < 4 * n
    requires request.Valid() && request.items == Header(index, n, code) + LeAll(ws) + tail && request.Room(0)
    requires response.Valid() && BlockReserved(response).Some?
    ensures Chosen(b, index).None? ==>
      (BlockCommand(b, request, response).Done? <==> Length16(n) <= 4 * |ws| + |tail|)
    ensures Chosen(b, index).Some? ==>
      ((exists w: World :: BlockCommand(Facing(b, w), request, response).Done?)
        <==> ws != [] && Length16(n - 1) <= 4 * (|ws| - 1) + |tail|)
  {
    hide RunBlock, LeAll, BlockReported, Header, BlockReserved, Chosen, Length16;
    HeaderTaken(request, index, n, code, LeAll(ws), tail);
    SkipKeeps(request, 4);
    LeAllLength(ws);
    if Chosen(b, index).None? {
      WrapsIff(Skip(request, 4), n, code);
    } else {
      var s := Block(b.dps[Chosen(b, index).value], 0, 0, n, 0, code, Skip(request, 4), BlockReserved(response).value);
      ChosenPort(b, index);
      forall w: World
        ensures BlockCommand(Facing(b, w), request, response).Done? <==> !RunBlock(Facing(b, w).c, s).Broken?
      {
        ChosenAgain(b, w, index);
      }
      forall w: World | !RunBlock(Facing(b, w).c, s).Broken?
        ensures ws != [] && Length16(n - 1) <= 4 * (|ws| - 1) + |tail|
      {
        ShortRun(Facing(b, w).c, s, ws, tail);
      }
      if ws != [] && Length16(n - 1) <= 4 * (|ws| - 1) + |tail| {
        BusyRun(Facing(b, BUSY).c, s, ws, tail);
        assert BlockCommand(Facing(b, BUSY), request, response).Done?;
      }
    }
  }

  lemma CutBlock(c: Config, s: Block)
    requires s.Valid() && !IsRead(s.code) && !WriteLoop(c, s).Through?
    ensures var r := WriteLoop(c, s);
      RunBlock(c, s).Broken? <==> r.Broken? || CancelWords(r.b.request, r.b.count, r.b.code).None?
  {
    hide WriteLoop, CancelWords;
  }

  lemma {:induction false} ShortRun(c: Config, s: Block, ws: seq<word>, tail: seq<byte>)
    requires c.port != Disabled && s.Valid() && s.count < 0x1_0000 && !IsRead(s.code) && s.request.Room(0)
    requires s.request.items == LeAll(ws) + tail && |tail| < 4 && 4 * |ws| + |tail| < 4 * s.count
    requires !RunBlock(c, s).Broken?
    ensures |ws| > 0 && Length16(s.count - 1) <= 4 * (|ws| - 1) + |tail|
  {
    hide LeAll, WriteLoop, CancelWords, Length16, RunBlock, Ring.Room;
    LeAllLength(ws);
    WriteLoopShort(c, s, ws, tail);
    CutBlock(c, s);
    var r := WriteLoop(c, s);
    CutWraps(s.request, r.b.request, s.count, s.code, s.count - r.b.count, ws, tail);
  }

  /** After k of the words, what is left to be cancelled. */
  lemma CutWraps(request: Ring, request1: Ring, n: nat, code: byte, k: nat, ws: seq<word>, tail: seq<byte>)
    requires request.Valid() && request.Room(0) && request.items == LeAll(ws) + tail && |tail| < 4
    requires 1 <= k <= |ws| && 4 * |ws| + |tail| < 4 * n && n < 0x1_0000 && !IsRead(code)
    requires request1.Valid() && request1.cap == request.cap && request1.got == request.got + 4 * k
    requires request1.items == LeAll(ws[k..]) + tail
    ensures CancelWords(request1, n - k, code).Some? ==> Length16(n - 1) <= 4 * (|ws| - 1) + |tail|
  {
    hide LeAll, CancelWords, Length16;
    LeAllLength(ws);
    LeAllLength(ws[k..]);
    var bytes := 4 * |ws| + |tail|;
    assert |request1.items| == bytes - 4 * k && 4 * (|ws| - 1) + |tail| == bytes - 4;
    WrapsIff(request1, n - k, code);
    if CancelWords(request1, n - k, code).Some? {
      assert Length16(n - k) <= bytes - 4 * k;
      WrapsLater(n, bytes, k);
    }
  }

  lemma BusyRun(c: Config, s: Block, ws: seq<word>, tail: seq<byte>)
    requires c.port != Disabled && s.Valid() && s.count < 0x1_0000 && !IsRead(s.code) && s.request.Room(0)
    requires s.request.items == LeAll(ws) + tail && 4 * |ws| + |tail| < 4 * s.count
    requires c.w == BUSY && ws != [] && Length16(s.count - 1) <= 4 * (|ws| - 1) + |tail|
    ensures !RunBlock(c, s).Broken?
  {
    hide LeAll, WriteLoop, CancelWords, Length16, BUSY, RunBlock;
    BusyCuts(c, s, ws, tail);
    CutBlock(c, s);
    LeAllLength(ws);
    LeAllLength(ws[1..]);
    var r := WriteLoop(c, s);
    WrapsIff(r.b.request, r.b.count, r.b.code);
  }

  // DAP_TransferConfigure.

  function ConfigureFor(idle: byte, waits: nat, matches: nat): (cmd: Command)
    requires waits < 0x1_0000 && matches < 0x1_0000
  {
    Command(CMD_TRANSFER_CONFIGURE, [idle] + Le16(waits) + Le16(matches), 0)
  }

  lemma ConfigureAnswered(b: Bench, idle: byte, waits: nat, matches: nat, request: Ring, response: Ring,
    rest: seq<byte>)
    requires waits < 0x1_0000 && matches < 0x1_0000 && request.Valid() && response.Valid() && request.Room(0)
    requires request.items == ConfigureFor(idle, waits, matches).payload + rest
    ensures ConfigureCommand(b, request, response) ==
      var b1 := b.(c := b.c.(waitRetries := waits, matchRetries := matches));
      if |response.items| + 2 > response.cap then Fault(b1, NoBufs)
      else Result.Done(b1, request.(got := request.got + 5, items := rest),
        response.(items := response.items + [0x04, 0x00]))
  {
    hide Ring.Get, Ring.GetClaimed, Le16, FromLe16;
    var r1 := request.(got := request.got + 1, items := Le16(waits) + Le16(matches) + rest);
    assert request.items == [idle] + (Le16(waits) + Le16(matches) + rest);
    GetFront(request, [idle], Le16(waits) + Le16(matches) + rest);
    assert r1.items == Le16(waits) + (Le16(matches) + rest);
    GetStraight(r1, Le16(waits), Le16(matches) + rest);
    GetStraight(r1.(got := r1.got + 2, items := Le16(matches) + rest), Le16(matches), rest);
    Le16Back(waits);
    Le16Back(matches);
  }

  lemma Le16Back(n: nat)
    requires n < 0x1_0000
    ensures FromLe16(Le16(n)) == n
  {
  }

  lemma ConfigureDoes(b: Bench, idle: byte, waits: nat, matches: nat, request: Ring, response: Ring, rest: seq<byte>)
    requires waits < 0x1_0000 && matches < 0x1_0000 && request.Valid() && response.Valid() && request.Room(0)
    requires request.items == ConfigureFor(idle, waits, matches).payload + rest
    ensures var cmd := ConfigureFor(idle, waits, matches);
      Does(Handle(b, cmd.id, request, response), Effects(b, cmd), cmd, request, response, rest)
  {
    hide ConfigureCommand, TransferCommand, BlockCommand, Le16, Ample;
    var cmd := ConfigureFor(idle, waits, matches);
    AmpleItems(cmd.payload);
    ConfigureAnswered(b, idle, waits, matches, request, response, rest);
    ConfigureAnswered(b, idle, waits, matches, Ample(cmd.payload), EMPTY, []);
    assert rest + [] == rest;
  }

  // Streams of them.

  /** What a host can ask for. */
  datatype Order =
    | Configure(idle: byte, waits: nat, matches: nat)
    | Transfer(index: byte, rs: seq<Request>)
    | ReadWords(index: byte, n: nat, code: byte)
    | WriteWords(index: byte, code: byte, ws: seq<word>)
  {
    predicate Sendable() {
      match this
      case Configure(_, waits, matches) => waits < 0x1_0000 && matches < 0x1_0000
      case Transfer(_, rs) => |rs| < 0x100
      case ReadWords(_, n, code) => n < 0x1_0000 && IsRead(code)
      case WriteWords(_, code, ws) => |ws| < 0x1_0000 && !IsRead(code)
    }

    function Command(): (cmd: Command)
      requires Sendable()
    {
      match this
      case Configure(idle, waits, matches) => ConfigureFor(idle, waits, matches)
      case Transfer(index, rs) => TransferFor(index, rs)
      case ReadWords(index, n, code) => BlockFor(index, n, code, [])
      case WriteWords(index, code, ws) => BlockFor(index, |ws|, code, ws)
    }
  }

  /** What a DAP_Transfer comes to, on a connected port and a detectable target: its first n requests carried out one at
      a time, as many as it reports; their words for the request buffer; and no other device touched. */
  lemma EffectsOfTransfer(b: Bench, index: byte, rs: seq<Request>) returns (n: nat, s1: Ref, out: seq<word>)
    requires Detectable(b.c.w) && Chosen(b, index).Some? && |rs| < 0x100
    ensures var i := Chosen(b, index).value;
      var dp := b.dps[i];
      var e := Effects(b, TransferFor(index, rs));
      && e.Some? && n <= |rs|
      && RunUsed(b.c, Ref(dp.log, dp.readBuf, b.mask, []), rs[..n], false) == Some(s1)
      && e.value.state == b.(dps := b.dps[i := e.value.state.dps[i]], mask := s1.mask)
      && |e.value.state.dps| == |b.dps| && e.value.appended == LeAll(out)
      && (out == s1.words || (s1.words != [] && out == s1.words[..|s1.words| - 1]))
      && exists ack: byte ::
        && e.value.reply == [CMD_TRANSFER, n, ack]
        && (ack == ACK_OK ==> n == |rs| && out == s1.words)
        && (n == |rs| ==> e.value.state.dps[i].log == s1.log)
  {
    hide TransferCommand, WordsFit, EncodeAll, RunUsed, Detectable, LeAll, NormalReads, Ring.Room, Reserved, Chosen;
    var payload := TransferFor(index, rs).payload;
    var request := Ample(payload);
    ReservedIff(EMPTY);
    assert request.items == [index, |rs|] + EncodeAll(rs) + [];
    n, s1, out := TransferCommandIsSequential(b, request, EMPTY, index, rs, []);
    NormalReadsAtMost(rs);
    RoomFits(b.c.port, request.cap, 2, |EncodeAll(rs)|, rs, false);
    assert [] + LeAll(out) == LeAll(out);
    var r := TransferCommand(b, request, EMPTY);
    assert r.Done?;
    var ack: byte :| r.response.items == [] + [CMD_TRANSFER, n, ack]
      && (ack == ACK_OK ==> n == |rs| && out == s1.words)
      && (n == |rs| ==> r.bench.dps[Chosen(b, index).value].log == s1.log);
    assert [] + [CMD_TRANSFER, n, ack] == [CMD_TRANSFER, n, ack];
  }

  /** The dispatcher's condition on its handlers holds, on every port and for every target. */
  lemma OrderProper(o: Order)
    requires o.Sendable()
    ensures Proper(Handle, Effects, o.Command())
  {
    hide Handle, Effects, ConfigureFor, TransferFor, BlockFor;
    var cmd := o.Command();
    OrderId(o);
    forall b: Bench, request: Ring, response: Ring, rest: seq<byte> |
      && request.Valid() && request.items == cmd.payload + rest && request.Room(cmd.room) && request.cap < 0x1_0000
      && response.Valid() && response.got == 0
      ensures Does(Handle(b, cmd.id, request, response), Effects(b, cmd), cmd, request, response, rest)
    {
      match o
      case Configure(idle, waits, matches) => ConfigureDoes(b, idle, waits, matches, request, response, rest);
      case Transfer(index, rs) => TransferDoes(b, index, rs, request, response, rest);
      case ReadWords(index, n, code) => BlockDoes(b, index, n, code, [], request, response, rest);
      case WriteWords(index, code, ws) => BlockDoes(b, index, |ws|, code, ws, request, response, rest);
    }
  }

  lemma OrderId(o: Order)
    requires o.Sendable()
    ensures o.Command().id != QUEUE_COMMANDS && o.Command().id != EXECUTE_COMMANDS
    ensures !o.Transfer? ==> o.Command().room == 0
  {
  }

  /** Every command in the packet is what a host sends for an order. */
  ghost predicate Ordered(p: Packet) {
    && (p.Batch? ==> 1 <= |p.cmds| <= 256)
    && forall cmd :: cmd in CommandsOf(p) ==> exists o: Order :: o.Sendable() && cmd == o.Command()
  }

  /** Any stream of packets with transfers, block transfers and new numbers of retries for them, on every port and
      whatever the targets answer, is carried out as the list of its commands; the words the transfers have read lie
      behind the request, in order, and disturb none of the commands. */
  lemma StreamOfOrders(d: Dispatch<Bench>, ps: seq<Packet>, rest: seq<byte>)
    requires ps != [] && forall p :: p in ps ==> Ordered(p)
    requires forall i :: 0 <= i < |ps| ==> (ps[i].Batch? && ps[i].queued <==> i < |ps| - 1)
    requires Ready(d, RoomOfAll(ps)) && d.request.items == EncodeStream(ps) + rest
    ensures Orderly(Handle)
    ensures var a := After(d, rest, RunStream(Effects, d.state, ps));
      var o := Dispatcher.Loop(Handle, d, 1, false);
      if a.None? then o.Failed? else a.value.Valid() && o == Dispatcher.Outcome.Done(a.value)
  {
    hide Handle, Effects, Proper, RunStream, EncodePacket, Orderly, Dispatcher.Loop, Ready;
    HandleOrderly();
    forall p | p in ps
      ensures ProperPacket(Handle, Effects, p)
    {
      forall cmd | cmd in CommandsOf(p)
        ensures Proper(Handle, Effects, cmd)
      {
        assert Ordered(p);
        var o: Order :| o.Sendable() && cmd == o.Command();
        OrderProper(o);
      }
      PacketProper(p);
    }
    assert ProperStream(Handle, Effects, ps);
    StreamRuns(Handle, Effects, d, ps, rest);
  }

  lemma PacketProper(p: Packet)
    requires p.Batch? ==> 1 <= |p.cmds| <= 256
    requires forall cmd :: cmd in CommandsOf(p) ==> Proper(Handle, Effects, cmd)
    ensures ProperPacket(Handle, Effects, p)
  {
    hide Proper;
    if p.Plain? {
      assert p.cmd in CommandsOf(p);
    }
  }
}
