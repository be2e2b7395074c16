/** The virtual com port (firmware/src/vcp/vcp.c, firmware/src/vcp/usb.c): the UART interrupt, the work item and the
    USB callbacks as steps that may come in any order, on two shared ring buffers.

    A USB callback is split wherever the UART interrupt could come between two of its actions. As the driver assumes,
    usb_transfer succeeds and a transfer is reported complete at once with the endpoint becoming free. Put claims on
    the ring towards the UART add up until one is finished, which a read that completes empty does not do. */
module VcpBridge {
  import opened Bits
  import opened RingBuffer
  import opened CircularBuffer

  /** Where vcp_usb_read_cb is; waiting for bytes that the USB driver writes from array index at on, as many as room. */
  datatype ReadPhase = Waiting(room: nat, at: nat) | Enabling | Claiming | NotStarted

  datatype Vcp = Vcp(
    mps: nat,
    configured: bool,
    // UART to host
    rx: Circ,
    flight: Option<nat>,
    work: bool,
    checking: bool,
    // host to UART
    tx: Circ,
    claimed: nat,
    phase: ReadPhase,
    txIrq: bool,
    // what has passed by since configuration
    heard: seq<byte>,
    toHost: seq<byte>,
    fromHost: seq<byte>,
    spoken: seq<byte>)

  datatype Event =
    | Configure
    | Reset
    | Hear(fifo: seq<byte>)
    | Speak(accepted: nat)
    | Work
    | WriteDone(size: nat)
    | CheckMore
    | ReadDone(data: seq<byte>)
    | EnableTx
    | StartRead

  function Cleared(s: Vcp, configured: bool): (r: Vcp) {
    Vcp(s.mps, configured, CircularBuffer.Reset(s.rx), None, false, false,
      CircularBuffer.Reset(s.tx), 0, if configured then Claiming else NotStarted, false, [], [], [], [])
  }

  /** vcp_uart_isr with rx ready and these bytes in the UART: what fits is kept, and if nothing does, all is lost. */
  function HearStep(s: Vcp, fifo: seq<byte>): (r: Vcp)
    requires s.rx.Valid()
  {
    var space := s.rx.PutRun();
    if space == 0 then s else
    var read := fifo[..Min(|fifo|, space)];
    s.(rx := s.rx.Fill(read), work := true, heard := s.heard + read)
  }

  /** vcp_uart_isr with tx ready, the UART accepting so many bytes. */
  function SpeakStep(s: Vcp, accepted: nat): (r: Vcp)
    requires s.tx.Valid()
  {
    var avail := s.tx.GetRun();
    if avail == 0 then s.(txIrq := false) else
    var filled := Min(accepted, avail);
    s.(tx := s.tx.Drop(filled), spoken := s.spoken + s.tx.Peek(filled))
  }

  /** usb_work_handler. */
  function WorkStep(s: Vcp): (r: Vcp)
    requires s.rx.Valid() && s.mps > 0
  {
    if s.flight.Some? then s.(work := false) else
    var size := s.rx.GetRun();
    if size == 0 then s.(work := false) else
    s.(work := false, flight := Some(if size % s.mps == 0 then size - 1 else size))
  }

  /** vcp_usb_read_cb with bytes that lie where the read was told to put them: only if there are any is the claim
      finished, from the end of the ring on. */
  function ReadDoneStep(s: Vcp, data: seq<byte>): (r: Vcp)
    requires s.tx.Valid() && s.phase.Waiting?
  {
    if data == [] then s.(phase := Claiming)
    else if s.phase.at + |data| <= |s.tx.buf| && |data| <= |s.tx.buf| - s.tx.len then
      s.(tx := s.tx.FillAt(s.phase.at, data), claimed := 0, fromHost := s.fromHost + data, phase := Enabling)
    else s
  }

  /** Its end: what can be claimed behind all that is claimed already is where the next read goes. */
  function StartReadStep(s: Vcp): (r: Vcp)
    requires s.tx.Valid()
  {
    if s.tx.len + s.claimed > |s.tx.buf| then s else
    var room := s.tx.ClaimRun(s.claimed);
    s.(claimed := s.claimed + room, phase := Waiting(room, s.tx.At(s.tx.len + s.claimed)))
  }

  /** Steps that are not enabled leave the state alone. */
  function Next(s: Vcp, e: Event): (r: Vcp)
    requires s.rx.Valid() && s.tx.Valid() && s.mps > 0
    ensures r.rx.Valid() && r.tx.Valid() && r.mps == s.mps
  {
    match e
    case Configure => if s.configured then s else Cleared(s, true)
    case Reset => Cleared(s, false)
    case Hear(fifo) => if s.configured then HearStep(s, fifo) else s
    case Speak(accepted) => if s.txIrq then SpeakStep(s, accepted) else s
    case Work => if s.work then WorkStep(s) else s
    case WriteDone(size) =>
      if s.flight.Some? && size <= s.flight.value && size <= s.rx.GetRun() then
        s.(flight := None, checking := true, toHost := s.toHost + s.rx.Peek(size), rx := s.rx.Drop(size))
      else s
    case CheckMore =>
      if s.checking then s.(checking := false, work := s.work || s.rx.len > 0) else s
    case ReadDone(data) => if s.phase.Waiting? && |data| <= s.phase.room then ReadDoneStep(s, data) else s
    case EnableTx => if s.phase.Enabling? then s.(txIrq := true, phase := Claiming) else s
    case StartRead => if s.phase.Claiming? then StartReadStep(s) else s
  }

  function Run(s: Vcp, es: seq<Event>): (r: Vcp)
    requires s.rx.Valid() && s.tx.Valid() && s.mps > 0
    ensures r.rx.Valid() && r.tx.Valid() && r.mps == s.mps
    decreases |es|
  {
    if es == [] then s else Run(Next(s, es[0]), es[1..])
  }

  /** In every run: nothing is lost, repeated or reordered on the way to the host; a transfer to the host is never
      empty, never a whole number of packets and never beyond what is there; as many bytes go to the UART as came for
      it; a read from the host never reaches bytes that are buffered; and whoever waits in a buffer has someone coming
      for him. */
  ghost predicate Invariant(s: Vcp) {
    && s.mps > 1 && s.rx.Valid() && s.tx.Valid()
    && RxInvariant(s) && TxInvariant(s)
    && (s.configured || s.phase.NotStarted?)
  }

  ghost predicate RxInvariant(s: Vcp)
    requires s.rx.Valid() && s.mps > 1
  {
    && s.heard == s.toHost + s.rx.Items()
    && (s.flight.Some? ==> 0 < s.flight.value <= s.rx.GetRun() && s.flight.value % s.mps != 0)
    && (s.rx.len > 0 ==> s.flight.Some? || s.work || s.checking)
  }

  ghost predicate TxInvariant(s: Vcp)
    requires s.tx.Valid()
  {
    && |s.fromHost| == |s.spoken| + s.tx.len
    && s.tx.len + s.claimed <= |s.tx.buf|
    && (s.phase.Waiting? ==>
          s.phase.room <= s.claimed && s.phase.at + s.phase.room <= |s.tx.buf|
          && s.phase.at == s.tx.At(s.tx.len + s.claimed - s.phase.room))
    && (s.tx.len > 0 ==> s.txIrq || s.phase.Enabling?)
  }

  lemma NextKeeps(s: Vcp, e: Event)
    requires Invariant(s)
    ensures Invariant(Next(s, e))
  {
    match e
    case Hear(fifo) => HearKeeps(s, fifo);
    case Speak(accepted) => SpeakKeeps(s, accepted);
    case Work => WorkKeeps(s);
    case WriteDone(size) => WriteDoneKeeps(s, size);
    case ReadDone(data) => ReadDoneKeeps(s, data);
    case StartRead => StartReadKeeps(s);
    case _ =>
  }

  lemma HearKeeps(s: Vcp, fifo: seq<byte>)
    requires Invariant(s)
    ensures Invariant(Next(s, Hear(fifo)))
  {
    hide TxInvariant, Circ.At, Circ.Fill, Circ.Items, Circ.Peek;
    if s.configured && s.rx.PutRun() > 0 {
      s.rx.FillItems(fifo[..Min(|fifo|, s.rx.PutRun())]);
    }
    SameTx(s, Next(s, Hear(fifo)));
  }

  lemma SameTx(s: Vcp, n: Vcp)
    requires s.tx.Valid() && n.tx == s.tx && n.claimed == s.claimed && n.phase == s.phase && n.txIrq == s.txIrq
    requires n.fromHost == s.fromHost && n.spoken == s.spoken
    ensures TxInvariant(n) == TxInvariant(s)
  {
  }

  lemma SameRx(s: Vcp, n: Vcp)
    requires s.rx.Valid() && n.rx == s.rx && n.flight == s.flight && n.work == s.work && n.checking == s.checking
    requires n.heard == s.heard && n.toHost == s.toHost && n.mps == s.mps > 1
    ensures RxInvariant(n) == RxInvariant(s)
  {
  }

  lemma SpeakKeeps(s: Vcp, accepted: nat)
    requires Invariant(s)
    ensures Invariant(Next(s, Speak(accepted)))
  {
    hide RxInvariant, Circ.At, Circ.Items, Circ.Peek;
    SameRx(s, Next(s, Speak(accepted)));
    if s.phase.Waiting? {
      s.tx.DropAt(Min(accepted, s.tx.GetRun()), s.tx.len + s.claimed - s.phase.room);
    }
  }

  lemma WorkKeeps(s: Vcp)
    requires Invariant(s)
    ensures Invariant(Next(s, Work))
  {
    var size := s.rx.GetRun();
    if size > 0 && size % s.mps == 0 {
      NotMultiple(size, s.mps);
    }
  }

  lemma NotMultiple(size: nat, mps: nat)
    requires size > 0 && mps > 1 && size % mps == 0
    ensures size > 1 && (size - 1) % mps != 0
  {
    var q := size / mps;
    assert size - 1 == mps * (q - 1) + (mps - 1);
    ModOf(q - 1, mps - 1, mps);
  }

  lemma WriteDoneKeeps(s: Vcp, size: nat)
    requires Invariant(s)
    ensures Invariant(Next(s, WriteDone(size)))
  {
    hide TxInvariant, Circ.At, Circ.Drop, Circ.Items, Circ.Peek;
    SameTx(s, Next(s, WriteDone(size)));
    if s.flight.Some? && size <= s.flight.value {
      s.rx.PeekItems(size);
      s.rx.DropItems(size);
      assert s.toHost + s.rx.Items()[..size] + s.rx.Items()[size..] == s.toHost + s.rx.Items();
    }
  }

  lemma ReadDoneKeeps(s: Vcp, data: seq<byte>)
    requires Invariant(s)
    ensures Invariant(Next(s, ReadDone(data)))
  {
    hide RxInvariant, Circ.At, Circ.Fill, Circ.Items;
    SameRx(s, Next(s, ReadDone(data)));
  }

  lemma StartReadKeeps(s: Vcp)
    requires Invariant(s)
    ensures Invariant(Next(s, StartRead))
  {
    hide RxInvariant, Circ.At, Circ.ClaimRun;
    SameRx(s, Next(s, StartRead));
  }

  /** While a transfer to the host is in flight, no step touches the bytes it was started on. */
  lemma FlightUntouched(s: Vcp, e: Event)
    requires Invariant(s) && s.flight.Some?
    requires e != Event.Reset && e != Configure && !e.WriteDone?
    ensures var n := Next(s, e);
      n.flight == s.flight && n.rx.start == s.rx.start
      && s.flight.value <= n.rx.GetRun() && n.rx.Peek(s.flight.value) == s.rx.Peek(s.flight.value)
  {
    if e.Hear? && s.configured && s.rx.PutRun() > 0 {
      s.rx.FillItems(e.fifo[..Min(|e.fifo|, s.rx.PutRun())]);
    }
  }

  /** A completed transfer delivers the oldest bytes, exactly those it was started on if it completes in full. */
  lemma WriteDoneDelivers(s: Vcp, size: nat)
    requires Invariant(s) && s.flight.Some? && size <= s.flight.value
    ensures var n := Next(s, WriteDone(size));
      && n.toHost == s.toHost + s.rx.Items()[..size] && n.rx.Items() == s.rx.Items()[size..]
      && n.flight.None? && n.checking && n.heard == s.heard
  {
    s.rx.PeekItems(size);
    s.rx.DropItems(size);
  }

  /** Whatever the order of events, from any state that satisfies the invariant. */
  lemma {:induction false} AnyRun(s: Vcp, es: seq<Event>)
    requires Invariant(s)
    ensures Invariant(Run(s, es))
    decreases |es|
  {
    hide Next, Invariant;
    InvariantValid(s);
    if es != [] {
      NextKeeps(s, es[0]);
      AnyRun(Next(s, es[0]), es[1..]);
    }
  }

  // From the host to the UART, where one thing can go wrong.

  /** Nothing is lost, repeated or reordered on the way to the UART. */
  ghost predicate Account(s: Vcp)
    requires s.tx.Valid()
  {
    s.fromHost == s.spoken + s.tx.Items()
  }

  /** The read under way was given the largest free stretch, right behind the bytes that are buffered. */
  ghost predicate WellPlaced(s: Vcp)
    requires s.tx.Valid()
  {
    s.phase == Waiting(s.tx.PutRun(), s.tx.At(s.tx.len))
  }

  /** All along the run the account holds and every read that is started is well placed. */
  ghost predicate KeptAlong(s: Vcp, es: seq<Event>)
    requires s.rx.Valid() && s.tx.Valid() && s.mps > 0
    decreases |es|
  {
    Account(s) && (es == [] ||
      var n := Next(s, es[0]);
      (es[0].StartRead? && s.phase.Claiming? ==> WellPlaced(n)) && KeptAlong(n, es[1..]))
  }

  /** A read completes empty although it had room, which a zero-length packet of the host brings about. */
  predicate EmptyRead(s: Vcp, e: Event) {
    s.phase.Waiting? && s.phase.room > 0 && e == ReadDone([])
  }

  predicate NoEmptyRead(s: Vcp, es: seq<Event>)
    requires s.rx.Valid() && s.tx.Valid() && s.mps > 0
    decreases |es|
  {
    es == [] || (!EmptyRead(s, es[0]) && NoEmptyRead(Next(s, es[0]), es[1..]))
  }

  /** The account holds and nothing is claimed but what the read under way was given. */
  ghost predicate Sound(s: Vcp)
    requires s.tx.Valid()
  {
    Account(s) && s.claimed == if s.phase.Waiting? then s.phase.room else 0
  }

  lemma ClearedSound(s: Vcp, configured: bool)
    requires Invariant(s)
    ensures Invariant(Cleared(s, configured)) && Sound(Cleared(s, configured))
  {
  }

  lemma NextSound(s: Vcp, e: Event)
    requires Invariant(s) && Sound(s) && !EmptyRead(s, e)
    ensures Sound(Next(s, e))
    ensures e.StartRead? && s.phase.Claiming? ==> WellPlaced(Next(s, e))
  {
    match e
    case Speak(accepted) => SpeakSound(s, accepted);
    case ReadDone(data) => ReadDoneSound(s, data);
    case _ =>
  }

  lemma SpeakSound(s: Vcp, accepted: nat)
    requires Invariant(s) && Sound(s)
    ensures Sound(Next(s, Speak(accepted)))
  {
    hide RxInvariant, Circ.At, Circ.Drop, Circ.Items, Circ.Peek;
    var n := Min(accepted, s.tx.GetRun());
    s.tx.PeekItems(n);
    s.tx.DropItems(n);
    assert s.spoken + s.tx.Items()[..n] + s.tx.Items()[n..] == s.spoken + s.tx.Items();
  }

  lemma ReadDoneSound(s: Vcp, data: seq<byte>)
    requires Invariant(s) && Sound(s) && !EmptyRead(s, ReadDone(data))
    ensures Sound(Next(s, ReadDone(data)))
  {
    hide RxInvariant, Circ.At, Circ.Fill, Circ.Items;
    if s.phase.Waiting? && |data| <= s.phase.room {
      s.tx.FillItems(data);
    }
  }

  lemma Misplaced(s: Vcp)
    requires Invariant(s) && s.phase.Claiming? && s.claimed > 0
    ensures !WellPlaced(Next(s, StartRead))
  {
    hide RxInvariant;
  }

  lemma ClaimStays(s: Vcp, e: Event)
    requires Invariant(s) && s.phase.Claiming? && s.claimed > 0 && e != Event.Reset && e != StartRead
    ensures Next(s, e).phase.Claiming? && Next(s, e).claimed > 0
  {
    hide RxInvariant, TxInvariant, Circ.At, Circ.Fill, Circ.Drop, Circ.Peek;
  }

  /** After an empty read: the next read is bound to be misplaced, whatever comes before it. */
  lemma {:induction false} MisplacedNext(s: Vcp, es: seq<Event>)
    requires Invariant(s) && s.phase.Claiming? && s.claimed > 0
    requires Event.Reset !in es
    ensures !KeptAlong(s, es + [StartRead])
    decreases |es|
  {
    hide Next, Invariant, WellPlaced;
    InvariantValid(s);
    var all := es + [StartRead];
    if all[0] == StartRead {
      Misplaced(s);
    } else {
      assert all[1..] == es[1..] + [StartRead];
      NextKeeps(s, all[0]);
      ClaimStays(s, all[0]);
      MisplacedNext(Next(s, all[0]), es[1..]);
    }
  }

  /** The way to the UART, since the port was last configured: bytes come through whole and in order, and reads are
      placed where they belong, if and only if no read completes empty while it has room. The read at the end is the
      one that the last callback of the run starts, if it has not done so yet. */
  lemma {:induction false} KeptIffNoEmptyRead(s: Vcp, es: seq<Event>)
    requires Invariant(s) && Sound(s) && Event.Reset !in es
    ensures KeptAlong(s, es + [StartRead]) <==> NoEmptyRead(s, es)
    decreases |es|
  {
    var all := es + [StartRead];
    if es == [] {
      NextSound(s, StartRead);
    } else {
      assert all[1..] == es[1..] + [StartRead];
      NextKeeps(s, es[0]);
      if EmptyRead(s, es[0]) {
        MisplacedNext(Next(s, es[0]), es[1..]);
      } else {
        NextSound(s, es[0]);
        KeptIffNoEmptyRead(Next(s, es[0]), es[1..]);
      }
    }
  }

  /** All of the ring is claimed and nobody can finish the claim. */
  ghost predicate Dead(s: Vcp)
    requires s.tx.Valid()
  {
    s.claimed == |s.tx.buf| && s.tx.len == 0 && !s.phase.Enabling? && (s.phase.Waiting? ==> s.phase.room == 0)
  }

  /** One way for it to fail: if the first read completes empty, nothing comes from the host until the next reset. */
  lemma FirstReadEmpty(s: Vcp, es: seq<Event>)
    requires Invariant(s) && !s.configured && Event.Reset !in es
    ensures Run(s, [Configure, StartRead, ReadDone([])] + es).fromHost == []
  {
    var s1 := Next(s, Configure);
    var s2 := Next(s1, StartRead);
    var s3 := Next(s2, ReadDone([]));
    NextKeeps(s, Configure);
    NextKeeps(s1, StartRead);
    NextKeeps(s2, ReadDone([]));
    assert Dead(s3) && s3.fromHost == [];
    StaysDead(s3, es);
    RunTwo(s, Configure, StartRead);
    RunSplit(s, [Configure, StartRead], [ReadDone([])]);
    RunOne(s2, ReadDone([]));
    RunSplit(s, [Configure, StartRead, ReadDone([])], es);
    assert [Configure, StartRead] + [ReadDone([])] == [Configure, StartRead, ReadDone([])];
  }

  lemma DeadNext(s: Vcp, e: Event)
    requires Invariant(s) && s.configured && Dead(s) && e != Event.Reset
    ensures var n := Next(s, e); n.configured && Dead(n) && n.fromHost == s.fromHost
  {
    hide RxInvariant, Circ.At, Circ.Fill, Circ.Drop, Circ.Peek;
  }

  lemma {:induction false} StaysDead(s: Vcp, es: seq<Event>)
    requires Invariant(s) && s.configured && Dead(s) && Event.Reset !in es
    ensures Run(s, es).fromHost == s.fromHost
    decreases |es|
  {
    hide Next, Invariant, Dead;
    InvariantValid(s);
    if es != [] {
      NextKeeps(s, es[0]);
      DeadNext(s, es[0]);
      StaysDead(Next(s, es[0]), es[1..]);
    }
  }

  /** The state of the way to the UART. */
  ghost predicate Towards(s: Vcp, tx: Circ, claimed: nat, phase: ReadPhase, txIrq: bool,
    passed: (seq<byte>, seq<byte>))
  {
    s.tx == tx && s.claimed == claimed && s.phase == phase && s.txIrq == txIrq && (s.fromHost, s.spoken) == passed
  }

  /** The other way: with a ring of four bytes, a read that completes empty in its last byte makes the UART send what
      lay there instead of the byte that came, here 7. */
  lemma StaleByteSpoken(s: Vcp)
    requires Invariant(s) && !s.configured && |s.tx.buf| == 4
    ensures var r := Run(s, [Configure, StartRead, ReadDone([1, 2, 3]), EnableTx, StartRead, Speak(3),
        ReadDone([]), StartRead, ReadDone([7]), EnableTx, Speak(1)]);
      r.fromHost == [1, 2, 3, 7] && r.spoken == [1, 2, 3, s.tx.buf[3]] && r.tx.len == 0
  {
    hide Next, Run, Invariant;
    InvariantValid(s);
    var s6 := Run(s, [Configure, StartRead, ReadDone([1, 2, 3]), EnableTx, StartRead, Speak(3)]);
    ThreeSpoken(s);
    EmptyThenOne(s6, s.tx.buf[3]);
    RunSplit(s, [Configure, StartRead, ReadDone([1, 2, 3]), EnableTx, StartRead, Speak(3)],
      [ReadDone([]), StartRead, ReadDone([7]), EnableTx, Speak(1)]);
    assert [Configure, StartRead, ReadDone([1, 2, 3]), EnableTx, StartRead, Speak(3)]
      + [ReadDone([]), StartRead, ReadDone([7]), EnableTx, Speak(1)]
      == [Configure, StartRead, ReadDone([1, 2, 3]), EnableTx, StartRead, Speak(3),
          ReadDone([]), StartRead, ReadDone([7]), EnableTx, Speak(1)];
  }

  lemma ThreeSpoken(s: Vcp)
    requires Invariant(s) && !s.configured && |s.tx.buf| == 4
    ensures var r := Run(s, [Configure, StartRead, ReadDone([1, 2, 3]), EnableTx, StartRead, Speak(3)]);
      Towards(r, Circ([1, 2, 3, s.tx.buf[3]], 3, 0), 1, Waiting(1, 3), true, ([1, 2, 3], [1, 2, 3]))
  {
    hide Run, HearStep, WorkStep;
    var s1 := Next(s, Configure);
    assert Towards(s1, Circ(s.tx.buf, 0, 0), 0, Claiming, false, ([], []));
    var s2 := Next(s1, StartRead);
    assert Towards(s2, Circ(s.tx.buf, 0, 0), 4, Waiting(4, 0), false, ([], []));
    var s3 := Next(s2, ReadDone([1, 2, 3]));
    var buf := [1, 2, 3, s.tx.buf[3]];
    assert s.tx.buf[..0] + [1, 2, 3] + s.tx.buf[0 + 3..] == buf;
    assert s2.tx.FillAt(0, [1, 2, 3]) == Circ(buf, 0, 3) && [1, 2, 3] != [];
    assert s3 == ReadDoneStep(s2, [1, 2, 3]) && s2.fromHost + [1, 2, 3] == [1, 2, 3];
    assert Towards(s3, Circ(buf, 0, 3), 0, Enabling, false, ([1, 2, 3], []));
    var s4 := Next(s3, EnableTx);
    assert Towards(s4, Circ(buf, 0, 3), 0, Claiming, true, ([1, 2, 3], []));
    var s5 := Next(s4, StartRead);
    assert Towards(s5, Circ(buf, 0, 3), 1, Waiting(1, 3), true, ([1, 2, 3], []));
    var s6 := Next(s5, Speak(3));
    assert buf[0..3] == [1, 2, 3];
    RunTwo(s, Configure, StartRead);
    RunTwo(s2, ReadDone([1, 2, 3]), EnableTx);
    RunTwo(s4, StartRead, Speak(3));
    RunSplit(s, [Configure, StartRead], [ReadDone([1, 2, 3]), EnableTx]);
    RunSplit(s, [Configure, StartRead] + [ReadDone([1, 2, 3]), EnableTx], [StartRead, Speak(3)]);
    assert [Configure, StartRead] + [ReadDone([1, 2, 3]), EnableTx] + [StartRead, Speak(3)]
      == [Configure, StartRead, ReadDone([1, 2, 3]), EnableTx, StartRead, Speak(3)];
  }

  lemma EmptyThenOne(s: Vcp, stale: byte)
    requires s.rx.Valid() && s.mps > 0
    requires Towards(s, Circ([1, 2, 3, stale], 3, 0), 1, Waiting(1, 3), true, ([1, 2, 3], [1, 2, 3]))
    ensures var r := Run(s, [ReadDone([]), StartRead, ReadDone([7]), EnableTx, Speak(1)]);
      r.fromHost == [1, 2, 3, 7] && r.spoken == [1, 2, 3, stale] && r.tx.len == 0
  {
    hide Run, HearStep, WorkStep;
    var s1 := Next(s, ReadDone([]));
    assert Towards(s1, Circ([1, 2, 3, stale], 3, 0), 1, Claiming, true, ([1, 2, 3], [1, 2, 3]));
    var s2 := Next(s1, StartRead);
    OneMore(s2, stale);
    RunTwo(s, ReadDone([]), StartRead);
    RunSplit(s, [ReadDone([]), StartRead], [ReadDone([7]), EnableTx, Speak(1)]);
    assert [ReadDone([]), StartRead] + [ReadDone([7]), EnableTx, Speak(1)]
      == [ReadDone([]), StartRead, ReadDone([7]), EnableTx, Speak(1)];
  }

  lemma OneMore(s: Vcp, stale: byte)
    requires s.rx.Valid() && s.mps > 0
    requires Towards(s, Circ([1, 2, 3, stale], 3, 0), 4, Waiting(3, 0), true, ([1, 2, 3], [1, 2, 3]))
    ensures var r := Run(s, [ReadDone([7]), EnableTx, Speak(1)]);
      r.fromHost == [1, 2, 3, 7] && r.spoken == [1, 2, 3, stale] && r.tx.len == 0
  {
    hide Run, HearStep, WorkStep;
    var s1 := Next(s, ReadDone([7]));
    assert [1, 2, 3, stale][..0] + [7] + [1, 2, 3, stale][0 + 1..] == [7, 2, 3, stale];
    assert s.tx.FillAt(0, [7]) == Circ([7, 2, 3, stale], 3, 1) && [7] != [];
    assert s1 == ReadDoneStep(s, [7]) && s.fromHost + [7] == [1, 2, 3, 7];
    assert Towards(s1, Circ([7, 2, 3, stale], 3, 1), 0, Enabling, true, ([1, 2, 3, 7], [1, 2, 3]));
    var s2 := Next(s1, EnableTx);
    assert [7, 2, 3, stale][3..4] == [stale];
    RunTwo(s, ReadDone([7]), EnableTx);
    RunOne(s2, Speak(1));
    RunSplit(s, [ReadDone([7]), EnableTx], [Speak(1)]);
    assert [ReadDone([7]), EnableTx] + [Speak(1)] == [ReadDone([7]), EnableTx, Speak(1)];
  }

  // What the steps take from outside, and give to it.

  /** Of what the UART has, as much is kept, from the front, as is free in one piece. */
  lemma HearTakes(s: Vcp, fifo: seq<byte>)
    requires Invariant(s) && s.configured
    ensures var n := Next(s, Hear(fifo));
      var free := |s.rx.buf| - s.rx.len;
      var stretch := if s.rx.start + s.rx.len < |s.rx.buf| then |s.rx.buf| - (s.rx.start + s.rx.len) else free;
      var kept := fifo[..if |fifo| <= stretch then |fifo| else stretch];
      && n.rx.Items() == s.rx.Items() + kept && n.heard == s.heard + kept
      && n.toHost == s.toHost && (free > 0 ==> n.work)
  {
    hide TxInvariant, Circ.At, Circ.Fill, Circ.Items, Circ.Peek, Circ.PutRun;
    s.rx.Longest(0, s.rx.PutRun());
    var free := |s.rx.buf| - s.rx.len;
    s.rx.Longest(0,
      if s.rx.start + s.rx.len < |s.rx.buf| then |s.rx.buf| - (s.rx.start + s.rx.len) else free);
    if s.rx.PutRun() > 0 {
      s.rx.FillItems(fifo[..Min(|fifo|, s.rx.PutRun())]);
    }
    assert s.rx.Items() + [] == s.rx.Items() && s.heard + [] == s.heard;
  }

  /** All that is kept in a run. */
  function Kept(s: Vcp, es: seq<Event>): (bs: seq<byte>)
    requires s.rx.Valid() && s.tx.Valid() && s.mps > 0
    decreases |es|
  {
    if es == [] then [] else
    (if es[0].Hear? && s.configured then es[0].fifo[..Min(|es[0].fifo|, s.rx.PutRun())] else [])
      + Kept(Next(s, es[0]), es[1..])
  }

  lemma HeardNext(s: Vcp, e: Event)
    requires Invariant(s) && s.configured && e != Event.Reset
    ensures var n := Next(s, e);
      n.configured && n.heard == s.heard + if e.Hear? then e.fifo[..Min(|e.fifo|, s.rx.PutRun())] else []
  {
    hide Circ.Fill, Circ.Drop, Circ.Peek, Circ.At, Circ.PutRun;
  }

  /** As long as the port is not reset, the bytes for the host, delivered and buffered, grow by just those. */
  lemma {:induction false} HostGetsKept(s: Vcp, es: seq<Event>)
    requires Invariant(s) && s.configured && Event.Reset !in es
    ensures var r := Run(s, es);
      && r.rx.Valid() && r.heard == s.heard + Kept(s, es)
      && r.toHost + r.rx.Items() == s.toHost + s.rx.Items() + Kept(s, es)
    decreases |es|
  {
    hide Next, Circ.PutRun;
    InvariantAccount(s);
    if es != [] {
      NextKeeps(s, es[0]);
      HeardNext(s, es[0]);
      var n := Next(s, es[0]);
      HostGetsKept(n, es[1..]);
      InvariantAccount(n);
    }
  }

  lemma InvariantAccount(s: Vcp)
    requires Invariant(s)
    ensures s.rx.Valid() && s.heard == s.toHost + s.rx.Items()
  {
  }

  /** The UART takes the oldest bytes, as many as it accepts of those that lie in one piece. */
  lemma SpeakGives(s: Vcp, accepted: nat)
    requires Invariant(s) && s.txIrq
    ensures var n := Next(s, Speak(accepted));
      var piece := if s.tx.start + s.tx.len <= |s.tx.buf| then s.tx.len else |s.tx.buf| - s.tx.start;
      var count := if accepted <= piece then accepted else piece;
      && n.spoken == s.spoken + s.tx.Items()[..count] && n.tx.Items() == s.tx.Items()[count..]
      && n.txIrq == (s.tx.len > 0) && n.fromHost == s.fromHost
  {
    hide RxInvariant, Circ.At, Circ.Drop, Circ.Items, Circ.Peek, Circ.GetRun;
    var piece := if s.tx.start + s.tx.len <= |s.tx.buf| then s.tx.len else |s.tx.buf| - s.tx.start;
    s.tx.Longest(0, s.tx.GetRun());
    s.tx.Longest(0, piece);
    var count := Min(accepted, s.tx.GetRun());
    s.tx.PeekItems(count);
    s.tx.DropItems(count);
    assert s.spoken + [] == s.spoken;
  }

  /** All the bytes of a read that completes come from the host, and go behind those that are buffered. */
  lemma ReadBrings(s: Vcp, data: seq<byte>)
    requires Invariant(s) && s.phase.Waiting? && |data| <= s.phase.room
    ensures var n := Next(s, ReadDone(data));
      && n.fromHost == s.fromHost + data && n.tx.len == s.tx.len + |data| && n.spoken == s.spoken
      && (Sound(s) ==> n.tx.Items() == s.tx.Items() + data)
      && (n.phase == if data == [] then Claiming else Enabling)
  {
    hide RxInvariant, Circ.At, Circ.Fill, Circ.Items;
    if Sound(s) {
      s.tx.FillItems(data);
    }
    assert s.fromHost + [] == s.fromHost && s.tx.Items() + [] == s.tx.Items();
  }

  /** All that comes in a run. */
  function Came(s: Vcp, es: seq<Event>): (bs: seq<byte>)
    requires s.rx.Valid() && s.tx.Valid() && s.mps > 0
    decreases |es|
  {
    if es == [] then [] else
    (if es[0].ReadDone? && s.phase.Waiting? && |es[0].data| <= s.phase.room then es[0].data else [])
      + Came(Next(s, es[0]), es[1..])
  }

  lemma CameNext(s: Vcp, e: Event)
    requires Invariant(s) && s.configured && e != Event.Reset
    ensures Next(s, e).configured
    ensures Next(s, e).fromHost ==
      s.fromHost + if e.ReadDone? && s.phase.Waiting? && |e.data| <= s.phase.room then e.data else []
  {
    hide Circ.At, Circ.Fill, Circ.Drop, Circ.Peek, Circ.Items;
    if e.ReadDone? && s.phase.Waiting? && |e.data| <= s.phase.room {
      ReadBrings(s, e.data);
    }
  }

  /** As long as the port is not reset and no read completes empty with room, the bytes for the UART, sent and
      buffered, grow by just those. */
  lemma {:induction false} UartGetsAll(s: Vcp, es: seq<Event>)
    requires Invariant(s) && Sound(s) && s.configured && Event.Reset !in es && NoEmptyRead(s, es)
    ensures var r := Run(s, es);
      r.tx.Valid() && r.spoken + r.tx.Items() == s.spoken + s.tx.Items() + Came(s, es)
    decreases |es|
  {
    hide Next, EmptyRead;
    InvariantValid(s);
    if es != [] {
      NextKeeps(s, es[0]);
      NextSound(s, es[0]);
      CameNext(s, es[0]);
      UartGetsAll(Next(s, es[0]), es[1..]);
    }
  }

  /** A reset, and configuring a port that is not, empty everything; nothing claimed, in flight or submitted is left. */
  lemma StartsEmpty(s: Vcp)
    requires Invariant(s)
    ensures var n := Next(s, Event.Reset); Empty(n) && !n.configured && n.phase.NotStarted?
    ensures !s.configured ==> var n := Next(s, Configure); Empty(n) && n.configured && n.phase.Claiming?
  {
  }

  predicate Empty(s: Vcp) {
    && s.rx.len == 0 && s.tx.len == 0 && s.claimed == 0 && s.flight.None? && !s.work && !s.checking && !s.txIrq
    && s.heard == s.toHost == s.fromHost == s.spoken == []
  }

  lemma NextCleared(s: Vcp)
    requires s.rx.Valid() && s.tx.Valid() && s.mps > 0
    ensures Next(s, Event.Reset) == Cleared(s, false)
    ensures Next(s, Configure) == if s.configured then s else Cleared(s, true)
  {
  }

  lemma InvariantValid(s: Vcp)
    requires Invariant(s)
    ensures s.rx.Valid() && s.tx.Valid() && s.mps > 0
  {
  }

  lemma {:induction false} RunSplit(s: Vcp, a: seq<Event>, b: seq<Event>)
    requires s.rx.Valid() && s.tx.Valid() && s.mps > 0
    ensures Run(s, a + b) == Run(Run(s, a), b)
    decreases |a|
  {
    hide Next;
    if a == [] {
      assert a + b == b;
    } else {
      RunSplit(Next(s, a[0]), a[1..], b);
      assert (a + b)[1..] == a[1..] + b;
    }
  }

  // The device, whose methods are the interrupt, the work handler and the callbacks.

  /** What the UART offers in one turn of the interrupt loop: bytes received, room to send. */
  datatype Round = Round(rx: Option<seq<byte>>, tx: Option<nat>)

  /** One turn; a turn that finds the receive ring full empties the UART and is the last. */
  function IsrTurn(s: Vcp, round: Round): (r: (Vcp, bool))
    requires s.rx.Valid() && s.tx.Valid() && s.mps > 0
    ensures r.0.rx.Valid() && r.0.tx.Valid() && r.0.mps == s.mps
  {
    var s1 := if round.rx.Some? then Next(s, Hear(round.rx.value)) else s;
    if round.rx.Some? && s.rx.len == |s.rx.buf| then (s1, false)
    else (if round.tx.Some? then Next(s1, Speak(round.tx.value)) else s1, true)
  }

  /** A whole interrupt. */
  function IsrRun(s: Vcp, rounds: seq<Round>): (r: Vcp)
    requires s.rx.Valid() && s.tx.Valid() && s.mps > 0
    ensures r.rx.Valid() && r.tx.Valid() && r.mps == s.mps
    decreases |rounds|
  {
    if rounds == [] then s else
    var (s1, on) := IsrTurn(s, rounds[0]);
    if on then IsrRun(s1, rounds[1..]) else s1
  }

  lemma SilentSpeak(s: Vcp, accepted: nat)
    requires s.rx.Valid() && s.tx.Valid() && s.mps > 0 && !s.txIrq
    ensures Next(s, Speak(accepted)) == s
  {
  }

  /** The steps of an interrupt: round by round, first what is received, then what is sent. */
  function Steps(rounds: seq<Round>): (es: seq<Event>)
    ensures forall e <- es :: e.Hear? || e.Speak?
  {
    if rounds == [] then [] else
    (if rounds[0].rx.Some? then [Hear(rounds[0].rx.value)] else [])
      + (if rounds[0].tx.Some? then [Speak(rounds[0].tx.value)] else [])
      + Steps(rounds[1..])
  }

  lemma RunTurn(s: Vcp, round: Round)
    requires s.rx.Valid() && s.tx.Valid() && s.mps > 0
    ensures Run(s, Steps([round])) ==
      var s1 := if round.rx.Some? then Next(s, Hear(round.rx.value)) else s;
      if round.tx.Some? then Next(s1, Speak(round.tx.value)) else s1
  {
    hide Next;
    var a := if round.rx.Some? then [Hear(round.rx.value)] else [];
    var b := if round.tx.Some? then [Speak(round.tx.value)] else [];
    assert Steps([round]) == a + b + Steps([]) == a + b;
    RunSplit(s, a, b);
    if a != [] {
      RunOne(s, a[0]);
    }
    if b != [] {
      RunOne(Run(s, a), b[0]);
    }
  }

  /** It is a run of just these steps, for the first n rounds; n is all of them, or round n finds the receive ring full,
      which none of the rounds before it did. */
  lemma {:induction false} IsrIsRun(s: Vcp, rounds: seq<Round>) returns (n: nat)
    requires s.rx.Valid() && s.tx.Valid() && s.mps > 0
    ensures n <= |rounds|
    ensures n == |rounds| ==> IsrRun(s, rounds) == Run(s, Steps(rounds))
    ensures n < |rounds| ==>
      var r := Run(s, Steps(rounds[..n]));
      rounds[n].rx.Some? && r.rx.len == |r.rx.buf| && IsrRun(s, rounds) == Next(r, Hear(rounds[n].rx.value))
    ensures forall k :: 0 <= k < n && rounds[k].rx.Some? ==>
      var r := Run(s, Steps(rounds[..k])); r.rx.len < |r.rx.buf|
    decreases |rounds|
  {
    hide Next, Steps, Run;
    n := 0;
    StepsNone(s);
    assert rounds[..0] == [];
    if rounds != [] {
      var (s1, on) := IsrTurn(s, rounds[0]);
      if on {
        RunTurn(s, rounds[0]);
        var m := IsrIsRun(s1, rounds[1..]);
        n := m + 1;
        assert rounds[..|rounds|] == rounds && rounds[1..][..|rounds| - 1] == rounds[1..];
        StepsMore(s, rounds, n);
        forall k | 0 <= k < n && rounds[k].rx.Some?
          ensures var r := Run(s, Steps(rounds[..k])); r.rx.len < |r.rx.buf|
        {
          if k > 0 {
            StepsMore(s, rounds, k);
            assert rounds[1..][k - 1] == rounds[k];
          }
        }
      }
    }
  }

  lemma StepsMore(s: Vcp, rounds: seq<Round>, k: nat)
    requires s.rx.Valid() && s.tx.Valid() && s.mps > 0 && 1 <= k <= |rounds|
    ensures Run(s, Steps(rounds[..k])) == Run(Run(s, Steps([rounds[0]])), Steps(rounds[1..][..k - 1]))
  {
    hide Run, Next, Steps;
    var rest := rounds[1..][..k - 1];
    assert rounds[..k] == [rounds[0]] + rest;
    StepsFirst(rounds[0], rest);
    RunSplit(s, Steps([rounds[0]]), Steps(rest));
  }

  lemma StepsFirst(round: Round, rest: seq<Round>)
    ensures Steps([round] + rest) == Steps([round]) + Steps(rest)
  {
    assert ([round] + rest)[1..] == rest && [round][1..] == [];
  }

  lemma StepsNone(s: Vcp)
    requires s.rx.Valid() && s.tx.Valid() && s.mps > 0
    ensures Steps([]) == [] && Run(s, Steps([])) == s
  {
  }

  class VcpDevice {
    const mps: nat
    var configured: bool
    var rx: Circ
    var busy: Option<nat>
    var workSubmitted: bool
    var tx: Circ
    var claimed: nat
    var phase: ReadPhase
    var txIrq: bool
    var checking: bool
    ghost var heard: seq<byte>
    ghost var toHost: seq<byte>
    ghost var fromHost: seq<byte>
    ghost var spoken: seq<byte>

    ghost function State(): (s: Vcp)
      reads this
    {
      Vcp(mps, configured, rx, busy, workSubmitted, checking, tx, claimed, phase, txIrq,
        heard, toHost, fromHost, spoken)
    }

    ghost predicate Valid()
      reads this
    {
      Invariant(State())
    }

    /** Both rings empty, nothing connected: the state vcp_reset leaves. */
    constructor (mps: nat, size: nat)
      requires mps > 1 && size > 0
      ensures Valid() && !configured && rx.len == tx.len == 0
    {
      this.mps := mps;
      configured, busy, workSubmitted, checking, phase, txIrq := false, None, false, false, NotStarted, false;
      claimed := 0;
      rx := Circ(seq(size, _ => 0), 0, 0);
      tx := Circ(seq(size, _ => 0), 0, 0);
      heard, toHost, fromHost, spoken := [], [], [], [];
    }

    /** ring_buf_reset of the ring towards the host. */
    method ClearRx()
      modifies `rx, `busy, `workSubmitted, `checking, `heard, `toHost
      ensures rx == CircularBuffer.Reset(old(rx))
      ensures busy == None && !workSubmitted && !checking && heard == toHost == []
    {
      rx := CircularBuffer.Reset(rx);
      busy, workSubmitted, checking := None, false, false;
      heard, toHost := [], [];
    }

    /** And of the ring towards the UART, which forgets all claims. */
    method ClearTx()
      modifies `tx, `claimed, `txIrq, `fromHost, `spoken
      ensures tx == CircularBuffer.Reset(old(tx)) && claimed == 0
      ensures !txIrq && fromHost == spoken == []
    {
      tx := CircularBuffer.Reset(tx);
      claimed, txIrq := 0, false;
      fromHost, spoken := [], [];
    }

    /** vcp_configure; the first vcp_usb_read_cb, with no data, is next. */
    method ConfigureDevice()
      requires Valid()
      modifies this
      ensures Valid() && State() == Next(old(State()), Configure)
    {
      hide Invariant, Next;
      InvariantValid(State());
      NextKeeps(State(), Configure);
      NextCleared(State());
      if !configured {
        ClearRx();
        ClearTx();
        configured, phase := true, Claiming;
      }
    }

    /** vcp_reset, on a USB reset or disconnect, which also ends the transfers that are under way. */
    method ResetDevice()
      requires Valid()
      modifies this
      ensures Valid() && State() == Next(old(State()), Event.Reset)
    {
      hide Invariant, Next;
      InvariantValid(State());
      NextKeeps(State(), Event.Reset);
      NextCleared(State());
      ClearRx();
      ClearTx();
      configured, phase := false, NotStarted;
    }

    /** The receiving half of a turn; false if the ring is full and the UART has been flushed. */
    method Receive(fifo: seq<byte>) returns (kept: bool)
      requires Valid() && configured
      modifies this
      ensures Valid() && State() == Next(old(State()), Hear(fifo))
      ensures kept == (old(rx).len < |old(rx).buf|) && configured
    {
      hide RxInvariant, TxInvariant;
      NextKeeps(State(), Hear(fifo));
      var space := rx.PutRun();
      kept := space > 0;
      if kept {
        var read := Min(|fifo|, space);
        rx := rx.Fill(fifo[..read]);
        heard := heard + fifo[..read];
        workSubmitted := true;
      }
    }

    /** The sending half. */
    method Send(accepted: nat)
      requires Valid() && txIrq
      modifies this
      ensures Valid() && State() == Next(old(State()), Speak(accepted)) && configured == old(configured)
    {
      hide RxInvariant, TxInvariant;
      NextKeeps(State(), Speak(accepted));
      var avail := tx.GetRun();
      if avail == 0 {
        txIrq := false;
      } else {
        var filled := Min(accepted, avail);
        spoken := spoken + tx.Peek(filled);
        tx := tx.Drop(filled);
      }
    }

    /** vcp_uart_isr. */
    method UartIsr(rounds: seq<Round>)
      requires Valid() && configured
      modifies this
      ensures Valid() && State() == IsrRun(old(State()), rounds)
    {
      hide Invariant, Next;
      InvariantValid(State());
      ghost var all := IsrRun(State(), rounds);
      assert rounds[0..] == rounds;
      for i := 0 to |rounds|
        invariant Valid() && configured && rx.Valid() && tx.Valid() && mps > 0
        invariant IsrRun(State(), rounds[i..]) == all
      {
        InvariantValid(State());
        assert rounds[i..][1..] == rounds[i + 1..];
        if rounds[i].rx.Some? {
          var kept := Receive(rounds[i].rx.value);
          InvariantValid(State());
          if !kept {
            break;
          }
        }
        if rounds[i].tx.Some? && !txIrq {
          SilentSpeak(State(), rounds[i].tx.value);
        }
        if rounds[i].tx.Some? && txIrq {
          Send(rounds[i].tx.value);
        }
        InvariantValid(State());
      }
    }

    /** usb_work_handler; transfer is what it hands to usb_transfer. */
    method WorkHandler() returns (transfer: Option<seq<byte>>)
      requires Valid() && workSubmitted
      modifies this
      ensures Valid() && State() == Next(old(State()), Work)
      ensures transfer.Some? ==>
        old(busy) == None && transfer.value <= old(rx.Items()) && 0 < |transfer.value| && |transfer.value| % mps != 0
        && busy == Some(|transfer.value|)
        && var run := old(rx).GetRun(); |transfer.value| == if run % mps == 0 then run - 1 else run
      ensures transfer.None? ==> old(busy).Some? || old(rx).len == 0
    {
      hide TxInvariant, Circ.At, Circ.Items, Circ.Peek;
      NextKeeps(State(), Work);
      workSubmitted := false;
      if busy.Some? {
        return None;
      }
      var size := rx.GetRun();
      if size == 0 {
        return None;
      }
      if size % mps == 0 {
        size := size - 1;
      }
      busy := Some(size);
      rx.PeekItems(size);
      transfer := Some(rx.Peek(size));
    }

    /** The first half of vcp_usb_write_cb. */
    method WriteCallback(size: nat)
      requires Valid() && busy.Some? && size <= busy.value
      modifies this
      ensures Valid() && State() == Next(old(State()), WriteDone(size))
    {
      hide TxInvariant, Circ.At, Circ.Drop, Circ.Items, Circ.Peek;
      NextKeeps(State(), WriteDone(size));
      toHost := toHost + rx.Peek(size);
      rx := rx.Drop(size);
      busy, checking := None, true;
    }

    /** The second half: is there more? */
    method CheckForMore()
      requires Valid() && checking
      modifies this
      ensures Valid() && State() == Next(old(State()), CheckMore)
      ensures workSubmitted == (old(workSubmitted) || old(rx).len > 0) && !checking
    {
      hide RxInvariant, TxInvariant;
      NextKeeps(State(), CheckMore);
      if rx.len > 0 {
        workSubmitted := true;
      }
      checking := false;
    }

    /** vcp_usb_read_cb, up to the point where the transmit interrupt is to be enabled. */
    method ReadCallback(data: seq<byte>)
      requires Valid() && phase.Waiting? && |data| <= phase.room
      modifies this
      ensures Valid() && State() == Next(old(State()), ReadDone(data))
    {
      hide RxInvariant, Circ.At, Circ.Items;
      NextKeeps(State(), ReadDone(data));
      if |data| > 0 {
        tx := tx.FillAt(phase.at, data);
        claimed := 0;
        fromHost := fromHost + data;
        phase := Enabling;
      } else {
        phase := Claiming;
      }
    }

    /** Its end: the interrupt is enabled and the next transfer started into the largest stretch not yet claimed. */
    method EnableAndRead()
      requires Valid() && (phase.Enabling? || phase.Claiming?)
      modifies this
      ensures Valid() && State() == Run(old(State()), [EnableTx, StartRead])
    {
      hide RxInvariant;
      AnyRun(State(), [EnableTx, StartRead]);
      RunTwo(State(), EnableTx, StartRead);
      if phase.Enabling? {
        txIrq := true;
      }
      var room := tx.ClaimRun(claimed);
      phase := Waiting(room, tx.At(tx.len + claimed));
      claimed := claimed + room;
    }
  }

  lemma RunOne(s: Vcp, e: Event)
    requires s.rx.Valid() && s.tx.Valid() && s.mps > 0
    ensures Run(s, [e]) == Next(s, e)
  {
    hide Next;
    assert [e][1..] == [];
  }

  lemma RunTwo(s: Vcp, e: Event, f: Event)
    requires s.rx.Valid() && s.tx.Valid() && s.mps > 0
    ensures Run(s, [e, f]) == Next(Next(s, e), f)
  {
    hide Next;
    assert [e, f] == [e] + [f];
    RunSplit(s, [e], [f]);
    RunOne(s, e);
    RunOne(Next(s, e), f);
  }
}
