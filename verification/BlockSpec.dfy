/** DAP_TransferBlock on values (dap_handle_cmd_transfer_block in firmware/src/dap/commands_transfer.c), and what it
    comes to: count accesses to one register, whatever the pipelining. */
module BlockSpec {
  import opened Bits
  import opened DebugPort
  import opened RingBuffer
  import opened Status
  import opened TransferSpec
  import opened TransferProof

  /** The variables of the handler; code is its variable request. */
  datatype Block = Block(
    dp: Dp,
    data: word,
    ack: nat,
    count: nat,
    done: nat,
    code: byte,
    request: Ring,
    response: Ring)
  {
    predicate Valid() {
      request.Valid() && response.Valid()
    }
  }

  datatype Ending = Through(b: Block) | Cut(b: Block) | Broken(b: Block, error: Error)

  function BlockWire(c: Config, b: Block): (r: Block)
    ensures r == b.(ack := r.ack, data := r.data, dp := r.dp)
  {
    var r := Retry(c.w, c.port, b.dp, b.code, b.data, c.waitRetries);
    b.(ack := r.ack, data := r.data, dp := r.dp)
  }

  /** One turn of the read loop: the last read of a posting port goes to RDBUFF. */
  function ReadTurn(c: Config, b: Block): (r: Ending)
    requires b.Valid() && b.count > 0
    ensures r.b.Valid() && r.b.request.cap == b.request.cap && r.b.response.cap == b.response.cap
    ensures r.b.count == b.count - 1 && |r.b.response.items| >= |b.response.items|
  {
    var b1 := b.(count := b.count - 1,
      code := if b.count == 1 && IsPosted(c.port, b.code) then RDBUFF_READ else b.code);
    var b2 := BlockWire(c, b1);
    if b2.ack != ACK_OK then Cut(b2) else
    var put := b2.response.Put(Le32(b2.data));
    if put.None? then Broken(b2, NoBufs) else Through(b2.(response := put.value, done := b2.done + 1))
  }

  function ReadLoop(c: Config, b: Block): (r: Ending)
    requires b.Valid()
    ensures r.b.Valid() && r.b.request.cap == b.request.cap && r.b.response.cap == b.response.cap
    ensures |r.b.response.items| >= |b.response.items|
    decreases b.count
  {
    if b.count == 0 then Through(b) else
    var r := ReadTurn(c, b);
    if r.Through? then ReadLoop(c, r.b) else r
  }

  function ReadBlock(c: Config, b: Block): (r: Ending)
    requires b.Valid()
    ensures r.b.Valid() && r.b.request.cap == b.request.cap && r.b.response.cap == b.response.cap
    ensures |r.b.response.items| >= |b.response.items|
  {
    if !IsPosted(c.port, b.code) then ReadLoop(c, b) else
    var b1 := BlockWire(c, b);
    if b1.ack != ACK_OK then Cut(b1) else ReadLoop(c, b1)
  }

  function WriteTurn(c: Config, b: Block): (r: Ending)
    requires b.Valid() && b.count > 0
    ensures r.b.Valid() && r.b.request.cap == b.request.cap && r.b.response.cap == b.response.cap
    ensures r.b.count == b.count - 1 && |r.b.response.items| >= |b.response.items|
  {
    var b1 := b.(count := b.count - 1);
    var got := b1.request.Get(4);
    if got.None? then Broken(b1, MsgSize) else
    var b2 := BlockWire(c, b1.(data := FromLe32(got.value.0), request := got.value.1));
    if b2.ack != ACK_OK then Cut(b2) else Through(b2.(done := b2.done + 1))
  }

  function WriteLoop(c: Config, b: Block): (r: Ending)
    requires b.Valid()
    ensures r.b.Valid() && r.b.request.cap == b.request.cap && r.b.response.cap == b.response.cap
    ensures |r.b.response.items| >= |b.response.items|
    decreases b.count
  {
    if b.count == 0 then Through(b) else
    var r := WriteTurn(c, b);
    if r.Through? then WriteLoop(c, r.b) else r
  }

  /** The writes, and a read of RDBUFF for the acknowledge of the last of them. */
  function WriteBlock(c: Config, b: Block): (r: Ending)
    requires b.Valid()
    ensures r.b.Valid() && r.b.request.cap == b.request.cap && r.b.response.cap == b.response.cap
    ensures |r.b.response.items| >= |b.response.items|
  {
    var r := WriteLoop(c, b);
    if r.Through? then Through(BlockWire(c, r.b.(code := RDBUFF_READ))) else r
  }

  /** Takes the cancelled words off the request buffer, their number counted in 16 bits as the code does. */
  function CancelWords(request: Ring, count: nat, code: byte): (r: Option<Ring>)
    requires request.Valid()
    ensures r.Some? ==> r.value.Valid() && r.value.cap == request.cap
  {
    if count > 0 && !IsRead(code) then
      var got := request.GetClaimed(count * 4 % 0x1_0000);
      if got.None? then None else Some(got.value.1)
    else Some(request)
  }

  function FinishBlock(b: Block): (r: Ending)
    requires b.Valid()
    ensures r.b.Valid() && r.b.request.cap == b.request.cap && r.b.response.cap == b.response.cap
    ensures |r.b.response.items| >= |b.response.items|
  {
    var rest := CancelWords(b.request, b.count, b.code);
    if rest.None? then Broken(b, MsgSize) else Through(b.(request := rest.value))
  }

  function RunBlock(c: Config, b: Block): (r: Ending)
    requires b.Valid()
    ensures r.b.Valid() && r.b.request.cap == b.request.cap && r.b.response.cap == b.response.cap
    ensures |r.b.response.items| >= |b.response.items|
  {
    var r := if IsRead(b.code) then ReadBlock(c, b) else WriteBlock(c, b);
    if r.Broken? then r else FinishBlock(r.b)
  }

  // What the block comes to.

  /** The words n successive reads of one register return. */
  function Values(w: World, log: seq<Access>, a: Access, n: nat): (ws: seq<word>)
    ensures |ws| == n
    decreases n
  {
    if n == 0 then [] else Values(w, log, a, n - 1) + [w.answer(log + Repeat(a, n))]
  }

  /** BlockWire is port_transfer, so one access with the value where the port puts it. */
  lemma BlockWireOk(c: Config, b: Block, s: Ref)
    requires c.port != Disabled && Detectable(c.w) && Tracks(c, b.dp, s)
    ensures var b1 := BlockWire(c, b);
      var a := AccessOf(b.code, b.data);
      var (s1, v) := ReadOne(c, s, a);
      && (b1.ack == ACK_OK ==>
        && (IsRead(b.code) ==> Tracks(c, b1.dp, s1))
        && (!IsRead(b.code) ==> Tracks(c, b1.dp, s.(log := s.log + [a])))
        && (IsRead(b.code) && IsPosted(c.port, b.code) ==> b1.dp.readBuf == v && b1.data == b.dp.readBuf)
        && (IsRead(b.code) && !IsPosted(c.port, b.code) ==> b1.data == v))
      && Extends(b1.dp.log, b.dp.log, a, if IsRdBuff(a) then 0 else 1)
  {
    hide Retry;
    var e := Engine(b.dp, b.data, 0, b.ack, false, false, 0, 0, b.request);
    WireOk(c, e, b.code, s);
  }

  /** Where a read block stands once some words are out: the register has been read once for each, and once more
      where the next word is already posted. */
  ghost predicate Reading(c: Config, b: Block, base: seq<Access>, a: Access, start: seq<byte>) {
    var ahead := if IsPosted(c.port, b.code) then 1 else 0;
    && b.dp.log == base + Repeat(a, b.done + ahead)
    && (ahead == 1 ==> b.dp.readBuf == c.w.answer(b.dp.log))
    && b.response.items == start + LeAll(Values(c.w, base, a, b.done))
  }

  /** A read block that ends: exactly done words are in the response, they are what the first done reads of the
      register returned, in order, and no register but this one has been accessed. */
  ghost predicate ReadOut(c: Config, r: Ending, base: seq<Access>, a: Access, start: seq<byte>) {
    && !r.Broken?
    && r.b.response.items == start + LeAll(Values(c.w, base, a, r.b.done))
    && exists m: nat :: m <= r.b.done + 2 && r.b.dp.log == base + Repeat(a, m)
  }

  lemma RepeatMore<T>(base: seq<T>, a: T, n: nat)
    ensures base + Repeat(a, n) + [a] == base + Repeat(a, n + 1)
  {
  }

  lemma ExtendsRepeat(log: seq<Access>, base: seq<Access>, a: Access, n: nat)
    requires Extends(log, base + Repeat(a, n), a, 1)
    ensures log == base + Repeat(a, n) || log == base + Repeat(a, n + 1)
  {
    var x := base + Repeat(a, n);
    if |log| == |x| {
      assert log == log[..|x|];
    } else {
      assert log == log[..|x|] + [a];
      RepeatMore(base, a, n);
    }
  }

  /** Space for count more words. */
  predicate Fits(r: Ring, count: nat) {
    |r.items| + 4 * count <= r.cap
  }

  lemma PutWord(r: Ring, start: seq<byte>, ws: seq<word>, v: word, count: nat)
    requires r.Valid() && count > 0 && Fits(r, count) && r.items == start + LeAll(ws)
    ensures var put := r.Put(Le32(v));
      put.Some? && put.value == r.(items := put.value.items)
      && put.value.items == start + LeAll(ws + [v]) && Fits(put.value, count - 1)
  {
    LeAllSplit(ws, [v]);
    assert LeAll([v]) == Le32(v) + LeAll([]) == Le32(v);
  }

  /** One turn of the read loop puts out the next value in line. */
  lemma ReadTurnRuns(c: Config, b: Block, base: seq<Access>, a: Access, start: seq<byte>)
    requires c.port != Disabled && Detectable(c.w) && b.Valid() && b.count > 0
    requires IsRead(b.code) && a == AccessOf(b.code, 0) && !IsRdBuff(a)
    requires Reading(c, b, base, a, start) && Fits(b.response, b.count)
    ensures var r := ReadTurn(c, b);
      && !r.Broken?
      && (r.Through? ==>
        && r.b.done == b.done + 1 && r.b.ack == ACK_OK && Fits(r.b.response, r.b.count)
        && (b.count > 1 ==> r.b.code == b.code && Reading(c, r.b, base, a, start))
        && (b.count == 1 ==>
          && r.b.dp.log == base + Repeat(a, r.b.done)
          && r.b.response.items == start + LeAll(Values(c.w, base, a, r.b.done))))
      && (r.Cut? ==> r.b.done == b.done && r.b.ack != ACK_OK && ReadOut(c, r, base, a, start))
  {
    hide Retry, Odd, LeAll, Le32, AccessOf;
    var b1 := b.(count := b.count - 1,
      code := if b.count == 1 && IsPosted(c.port, b.code) then RDBUFF_READ else b.code);
    var s := Ref(b.dp.log, b.dp.readBuf, 0, []);
    BlockWireOk(c, b1, s);
    var b2 := BlockWire(c, b1);
    var n := b.done + if IsPosted(c.port, b.code) then 1 else 0;
    RepeatMore(base, a, n);
    SameRead(b1.code, b.data);
    RdBuffAccess();
    assert AccessOf(b1.code, b.data) == if b1.code == b.code then a else AccessOf(RDBUFF_READ, 0);
    if b1.code == b.code {
      ExtendsRepeat(b2.dp.log, base, a, n);
    } else {
      assert b2.dp.log == b2.dp.log[..|b.dp.log|] == b.dp.log;
    }
    if b2.ack == ACK_OK {
      assert b2.data == c.w.answer(base + Repeat(a, b.done + 1));
      PutWord(b2.response, start, Values(c.w, base, a, b.done), b2.data, b.count);
    }
  }

  lemma RdBuffAccess()
    ensures IsRead(RDBUFF_READ) && IsRdBuff(AccessOf(RDBUFF_READ, 0)) && !IsAp(RDBUFF_READ)
  {
  }

  lemma {:induction false} ReadLoopRuns(c: Config, b: Block, base: seq<Access>, a: Access, start: seq<byte>)
    requires c.port != Disabled && Detectable(c.w) && b.Valid() && b.count > 0
    requires IsRead(b.code) && a == AccessOf(b.code, 0) && !IsRdBuff(a)
    requires Reading(c, b, base, a, start) && Fits(b.response, b.count)
    ensures var r := ReadLoop(c, b);
      && ReadOut(c, r, base, a, start)
      && (r.Through? ==>
        && r.b.done == b.done + b.count && r.b.ack == ACK_OK && r.b.count == 0
        && r.b.dp.log == base + Repeat(a, r.b.done))
      && (r.Cut? ==> r.b.done < b.done + b.count && r.b.ack != ACK_OK)
      && IsRead(r.b.code)
    decreases b.count
  {
    hide Retry, Odd, LeAll, Le32, AccessOf, ReadTurn, Reading, Values;
    ReadTurnRuns(c, b, base, a, start);
    var r := ReadTurn(c, b);
    ReadTurnCode(c, b);
    if r.Through? && b.count > 1 {
      ReadLoopRuns(c, r.b, base, a, start);
    }
  }

  lemma ReadTurnCode(c: Config, b: Block)
    requires b.Valid() && b.count > 0 && IsRead(b.code)
    ensures IsRead(ReadTurn(c, b).b.code)
  {
  }

  /** DAP_TransferBlock, reading: if OK is reported, all count words are there, the register has been read exactly
      count times, and the words are what those reads returned, in order; the posted first read and the final
      read of RDBUFF neither lose, repeat nor shift a word. Otherwise fewer words are reported, and exactly as many
      are there, the first ones. */
  lemma ReadBlockIsExact(c: Config, b: Block)
    requires c.port != Disabled && Detectable(c.w) && b.Valid() && b.count > 0 && b.done == 0
    requires IsRead(b.code) && !IsRdBuff(AccessOf(b.code, 0)) && Fits(b.response, b.count)
    ensures var r := RunBlock(c, b);
      var a := AccessOf(b.code, 0);
      && ReadOut(c, r, b.dp.log, a, b.response.items)
      && r.b.done <= b.count
      && (r.b.ack == ACK_OK <==> r.b.done == b.count)
      && (r.b.ack == ACK_OK ==> r.b.dp.log == b.dp.log + Repeat(a, b.count))
      && r.b.request == b.request
  {
    hide Retry, Odd, Le32, AccessOf, ReadLoop, ReadTurn;
    var a := AccessOf(b.code, 0);
    var base, start := b.dp.log, b.response.items;
    ReadLoopFrame(c, b);
    if IsPosted(c.port, b.code) {
      SameRead(b.code, b.data);
      BlockWireOk(c, b, Ref(base, b.dp.readBuf, 0, []));
      var b1 := BlockWire(c, b);
      RepeatMore(base, a, 0);
      assert base + Repeat(a, 0) == base;
      ExtendsRepeat(b1.dp.log, base, a, 0);
      if b1.ack == ACK_OK {
        ReadLoopFrame(c, b1);
        ReadLoopRuns(c, b1, base, a, start);
      }
    } else {
      ReadLoopRuns(c, b, base, a, start);
    }
  }

  lemma {:induction false} ReadLoopFrame(c: Config, b: Block)
    requires b.Valid()
    ensures ReadLoop(c, b).b.request == b.request
    decreases b.count
  {
    if b.count > 0 && ReadTurn(c, b).Through? {
      ReadLoopFrame(c, ReadTurn(c, b).b);
    }
  }

  /** What reading RDBUFF over and over returns: zeros on JTAG, the word it holds on SWD. */
  function BufferWord(c: Config, dp: Dp): (v: word) {
    if c.port == Jtag then 0 else dp.readBuf
  }

  /** A block that reads RDBUFF itself stands with done words out and no register accessed. */
  ghost predicate ReadingBuffer(c: Config, b: Block, dp: Dp, start: seq<byte>) {
    && b.dp.log == dp.log && b.dp.readBuf == BufferWord(c, dp)
    && b.response.items == start + LeAll(Repeat(BufferWord(c, dp), b.done))
  }

  lemma BufferTurnRuns(c: Config, b: Block, dp: Dp, start: seq<byte>)
    requires c.port != Disabled && Detectable(c.w) && b.Valid() && b.count > 0
    requires IsRead(b.code) && IsRdBuff(AccessOf(b.code, 0)) && Fits(b.response, b.count)
    requires ReadingBuffer(c, b, dp, start)
    ensures var r := ReadTurn(c, b);
      && !r.Broken? && IsRead(r.b.code) && IsRdBuff(AccessOf(r.b.code, 0)) && Fits(r.b.response, r.b.count)
      && r.b.dp.log == dp.log
      && (r.Through? ==> r.b.done == b.done + 1 && r.b.ack == ACK_OK && ReadingBuffer(c, r.b, dp, start))
      && (r.Cut? ==> r.b.done == b.done && r.b.ack != ACK_OK && r.b.response == b.response)
  {
    hide Retry, Odd, LeAll, Le32, AccessOf;
    var b1 := b.(count := b.count - 1,
      code := if b.count == 1 && IsPosted(c.port, b.code) then RDBUFF_READ else b.code);
    RdBuffAccess();
    SameRead(b1.code, b.data);
    BlockWireOk(c, b1, Ref(b.dp.log, b.dp.readBuf, 0, []));
    var b2 := BlockWire(c, b1);
    assert b2.dp.log == b2.dp.log[..|b.dp.log|] == b.dp.log;
    NotPosted(c.port, b.code);
    if b2.ack == ACK_OK {
      var v := BufferWord(c, dp);
      assert Repeat(v, b.done) + [v] == Repeat(v, b.done + 1);
      PutWord(b2.response, start, Repeat(v, b.done), b2.data, b.count);
    }
  }

  lemma NotPosted(port: Port, code: byte)
    requires IsRdBuff(AccessOf(code, 0)) && port != Disabled
    ensures IsPosted(port, code) <==> port == Jtag
    ensures !IsAp(code)
  {
  }

  lemma {:induction false} BufferLoopRuns(c: Config, b: Block, dp: Dp, start: seq<byte>)
    requires c.port != Disabled && Detectable(c.w) && b.Valid()
    requires IsRead(b.code) && IsRdBuff(AccessOf(b.code, 0)) && Fits(b.response, b.count)
    requires ReadingBuffer(c, b, dp, start)
    ensures var r := ReadLoop(c, b);
      && !r.Broken? && IsRead(r.b.code) && r.b.dp.log == dp.log
      && b.done <= r.b.done <= b.done + b.count
      && r.b.response.items == start + LeAll(Repeat(BufferWord(c, dp), r.b.done))
      && (r.Through? ==> r.b.done == b.done + b.count && (b.count > 0 ==> r.b.ack == ACK_OK))
      && (r.Cut? ==> r.b.done < b.done + b.count && r.b.ack != ACK_OK)
    decreases b.count
  {
    hide Retry, Odd, LeAll, Le32, AccessOf, ReadTurn;
    if b.count > 0 {
      BufferTurnRuns(c, b, dp, start);
      var r := ReadTurn(c, b);
      if r.Through? {
        BufferLoopRuns(c, r.b, dp, start);
      }
    }
  }

  /** DAP_TransferBlock reading RDBUFF itself: no register is accessed, and the words are all the same. */
  lemma ReadBlockOfBuffer(c: Config, b: Block)
    requires c.port != Disabled && Detectable(c.w) && b.Valid() && b.count > 0 && b.done == 0
    requires IsRead(b.code) && IsRdBuff(AccessOf(b.code, 0)) && Fits(b.response, b.count)
    ensures var r := RunBlock(c, b);
      && !r.Broken? && r.b.done <= b.count && (r.b.ack == ACK_OK <==> r.b.done == b.count)
      && r.b.dp.log == b.dp.log && r.b.request == b.request
      && r.b.response.items == b.response.items + LeAll(Repeat(BufferWord(c, b.dp), r.b.done))
  {
    hide Retry, Odd, LeAll, Le32, AccessOf, ReadLoop, ReadTurn;
    ReadLoopFrame(c, b);
    LeAllEmpty();
    assert Repeat(BufferWord(c, b.dp), 0) == [] && b.response.items + [] == b.response.items;
    NotPosted(c.port, b.code);
    if IsPosted(c.port, b.code) {
      SameRead(b.code, b.data);
      BlockWireOk(c, b, Ref(b.dp.log, b.dp.readBuf, 0, []));
      var b1 := BlockWire(c, b);
      assert b1.dp.log == b1.dp.log[..|b.dp.log|] == b.dp.log;
      if b1.ack == ACK_OK {
        ReadLoopFrame(c, b1);
        BufferLoopRuns(c, b1, b.dp, b.response.items);
      }
    } else {
      BufferLoopRuns(c, b, b.dp, b.response.items);
    }
  }

  // Writing.

  function Writes(code: byte, ws: seq<word>): (log: seq<Access>)
    ensures |log| == |ws|
  {
    seq(|ws|, i requires 0 <= i < |ws| => AccessOf(code, ws[i]))
  }

  /** One turn of the write loop delivers the next word. */
  lemma WriteTurnRuns(c: Config, b: Block, ws: seq<word>, rest: seq<byte>)
    requires c.port != Disabled && Detectable(c.w) && b.Valid() && b.count == |ws| > 0
    requires !IsRead(b.code) && b.request.items == LeAll(ws) + rest
    ensures var r := WriteTurn(c, b);
      && !r.Broken? && r.b.code == b.code && r.b.response == b.response
      && r.b.request == b.request.(got := b.request.got + 4, items := LeAll(ws[1..]) + rest)
      && (r.Through? ==>
        r.b.done == b.done + 1 && r.b.ack == ACK_OK && r.b.dp.log == b.dp.log + [AccessOf(b.code, ws[0])])
      && (r.Cut? ==> r.b.done == b.done && r.b.ack != ACK_OK && r.b.dp.log == b.dp.log)
  {
    hide Retry, Odd, Le32, FromLe32;
    var got := b.request.Get(4).value;
    assert LeAll(ws) + rest == Le32(ws[0]) + (LeAll(ws[1..]) + rest);
    assert got.0 == Le32(ws[0]);
    Le32RoundTrip(ws[0]);
    var b1 := b.(count := b.count - 1, data := ws[0], request := got.1);
    BlockWireOk(c, b1, Ref(b.dp.log, b.dp.readBuf, 0, []));
    WriteRefused(c, b1);
  }

  /** A write that is refused has not been performed. */
  lemma WriteRefused(c: Config, b: Block)
    requires c.port != Disabled && !IsRead(b.code)
    ensures BlockWire(c, b).ack != ACK_OK ==> BlockWire(c, b).dp.log == b.dp.log
  {
    hide Odd;
    RetryExactlyOnce(c.w, c.port, b.dp, b.code, b.data, c.waitRetries);
  }

  lemma NoWrites(code: byte)
    ensures Writes(code, []) == []
  {
  }

  lemma WritesMore(code: byte, ws: seq<word>, m: nat)
    requires m < |ws|
    ensures Writes(code, ws[..m + 1]) == [AccessOf(code, ws[0])] + Writes(code, ws[1..][..m])
  {
    hide AccessOf;
    assert ws[..m + 1] == [ws[0]] + ws[1..][..m];
  }

  lemma {:induction false} WriteLoopRuns(c: Config, b: Block, ws: seq<word>, rest: seq<byte>)
    requires c.port != Disabled && Detectable(c.w) && b.Valid() && b.count == |ws|
    requires !IsRead(b.code) && b.request.items == LeAll(ws) + rest
    ensures var r := WriteLoop(c, b);
      && !r.Broken? && r.b.code == b.code && r.b.response == b.response
      && b.done <= r.b.done <= b.done + |ws|
      && r.b.dp.log == b.dp.log + Writes(b.code, ws[..r.b.done - b.done])
      && (r.Through? ==> r.b.done == b.done + |ws| && r.b.count == 0)
      && (r.Cut? ==> r.b.done < b.done + |ws| && r.b.ack != ACK_OK)
      && r.b.count <= |ws| && r.b.request.items == LeAll(ws[|ws| - r.b.count..]) + rest
      && r.b.request.got + |r.b.request.items| == b.request.got + |b.request.items| && r.b.request.cap == b.request.cap
    decreases |ws|
  {
    hide Retry, Odd, Le32, AccessOf, WriteTurn, LeAll, Writes, Detectable;
    if ws == [] {
      NoWrites(b.code);
      assert ws[0..] == ws && b.dp.log + [] == b.dp.log;
    } else {
      WriteTurnRuns(c, b, ws, rest);
      LeAllLength(ws);
      LeAllLength(ws[1..]);
      var r := WriteTurn(c, b);
      if r.Through? {
        WriteLoopRuns(c, r.b, ws[1..], rest);
        var m := WriteLoop(c, r.b).b.done - r.b.done;
        WritesMore(b.code, ws, m);
        var left := WriteLoop(c, r.b).b.count;
        assert ws[1..][|ws[1..]| - left..] == ws[|ws| - left..];
      } else {
        NoWrites(b.code);
        assert ws[|ws| - r.b.count..] == ws[1..] && ws[..0] == [] && b.dp.log + [] == b.dp.log;
      }
    }
  }

  /** Cancelled words are taken off the request buffer, if their length in bytes fits 16 bits. */
  lemma CancelInStep(request: Ring, left: seq<word>, rest: seq<byte>, code: byte)
    requires request.Valid() && request.items == LeAll(left) + rest && request.Room(0) && !IsRead(code)
    ensures var r := CancelWords(request, |left|, code);
      && r.Some?
      && (r.value.items == rest <==> |left| < 0x4000)
      && r.value.items == (LeAll(left) + rest)[4 * |left| % 0x1_0000..]
  {
    hide LeAll, CancelWords, Ring.GetClaimed, Ring.Room;
    LeAllLength(left);
    CancelClaim(request, |left|, code);
    Wrapped(|left|);
    var items, k := request.items, 4 * |left| % 0x1_0000;
    assert items[4 * |left|..] == rest;
    assert |items[k..]| == |items| - k && |rest| == |items| - 4 * |left|;
  }

  /** A write block that is short of words, on a port that cannot take it, should be an error. It is accepted instead
      if and only if the announced count is 0x4000 or more and what the length wraps to is there. */
  lemma ShortAcceptedIff(request: Ring, count: nat, code: byte)
    requires request.Valid() && request.Room(0) && !IsRead(code) && count < 0x1_0000
    requires |request.items| < 4 * count
    ensures CancelWords(request, count, code).Some? <==> count >= 0x4000 && 4 * count % 0x1_0000 <= |request.items|
  {
    Wrapped(count);
    if request.items != [] {
      ClaimsAll(request);
    }
  }

  /** Such a command: 0x4000 words announced, and none there. */
  lemma NoWordsAccepted(request: Ring, code: byte)
    requires request.Valid() && request.items == [] && request.Room(0) && !IsRead(code)
    ensures CancelWords(request, 0x4000, code) == Some(request)
  {
    assert 0x4000 * 4 % 0x1_0000 == 0 && request.items[0..] == [];
  }

  lemma CancelClaim(request: Ring, n: nat, code: byte)
    requires request.Valid() && request.Room(0) && !IsRead(code) && 4 * n <= |request.items|
    ensures var r := CancelWords(request, n, code);
      var k := 4 * n % 0x1_0000;
      r.Some? && k <= |request.items| && r.value == request.(got := request.got + k, items := request.items[k..])
  {
    Wrapped(n);
    if n > 0 {
      ClaimsAll(request);
    } else {
      assert request.items[0..] == request.items;
    }
  }

  lemma ClaimsAll(request: Ring)
    requires request.Valid() && request.Room(0) && request.items != []
    ensures request.GetRun() == |request.items|
  {
  }

  lemma Wrapped(n: nat)
    ensures 4 * n % 0x1_0000 <= 4 * n
    ensures 4 * n % 0x1_0000 == 4 * n <==> n < 0x4000
  {
  }

  /** DAP_TransferBlock, writing: the first done words, and no others, have been written in order, once each; OK
      means all of them. The words are off the request buffer whether written or cancelled. Only a buffer of 64 KB or
      more could hold so many that the length of the cancelled ones, a 16-bit number (line 514), comes out wrong. */
  lemma WriteBlockIsExact(c: Config, b: Block, ws: seq<word>, rest: seq<byte>)
    requires c.port != Disabled && Detectable(c.w) && b.Valid() && b.count == |ws| && b.done == 0
    requires !IsRead(b.code) && b.request.items == LeAll(ws) + rest && b.request.Room(0)
    ensures var r := RunBlock(c, b);
      && !r.Broken? && r.b.done <= |ws|
      && r.b.dp.log == b.dp.log + Writes(b.code, ws[..r.b.done])
      && (r.b.ack == ACK_OK ==> r.b.done == |ws|)
      && (b.request.cap < 0x1_0000 ==> r.b.request.items == rest)
      && (r.b.request.items == rest <==> r.b.count < 0x4000)
      && r.b.response == b.response
  {
    hide Retry, Odd, Le32, WriteLoop, LeAll, CancelWords;
    WriteLoopRuns(c, b, ws, rest);
    var r := WriteLoop(c, b);
    var left := ws[|ws| - r.b.count..];
    LeAllLength(left);
    if r.Through? {
      var b1 := r.b.(code := RDBUFF_READ);
      RdBuffAccess();
      SameRead(RDBUFF_READ, b1.data);
      BlockWireOk(c, b1, Ref(b1.dp.log, b1.dp.readBuf, 0, []));
      NothingLeft(rest, b1.request, RDBUFF_READ);
      assert left == [];
      assert BlockWire(c, b1).dp.log == BlockWire(c, b1).dp.log[..|b1.dp.log|] == b1.dp.log;
    } else {
      CancelInStep(r.b.request, left, rest, b.code);
    }
  }

  lemma NothingLeft(rest: seq<byte>, request: Ring, code: byte)
    requires request.Valid()
    ensures CancelWords(request, 0, code) == Some(request) && LeAll([]) + rest == rest
  {
  }

  /** A block read of no words at all still reads the register once where reads are posted: the access that should have
      been collected has been made, and nothing is reported. */
  lemma EmptyReadStillPosts(c: Config, b: Block)
    requires c.port != Disabled && Detectable(c.w) && b.Valid() && b.count == b.done == 0 && b.ack == 0
    requires IsRead(b.code) && !IsRdBuff(AccessOf(b.code, 0))
    ensures var r := RunBlock(c, b);
      && !r.Broken? && r.b.done == 0 && r.b.response == b.response && r.b.request == b.request
      && (r.b.ack == ACK_OK ==> IsPosted(c.port, b.code) && r.b.dp.log == b.dp.log + [AccessOf(b.code, 0)])
      && (!IsPosted(c.port, b.code) ==> r.b.dp == b.dp && r.b.ack == 0)
  {
    hide Retry, Odd, Le32, AccessOf;
    if IsPosted(c.port, b.code) {
      SameRead(b.code, b.data);
      BlockWireOk(c, b, Ref(b.dp.log, b.dp.readBuf, 0, []));
    }
  }
}
