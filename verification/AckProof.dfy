/** The acknowledge that DAP_Transfer and DAP_TransferBlock report is the one the target gave last. In particular the
    read of RDBUFF after a write that came last is made, and its acknowledge is what the host gets. */
module AckProof {
  import opened Bits
  import opened DebugPort
  import opened RingBuffer
  import opened TransferSpec
  import opened BlockSpec

  /** The target has answered the latest transaction with ack, or with OK and a word of bad parity. */
  ghost predicate Answered(c: Config, dp: Dp, ack: nat) {
    dp.attempts > 0 &&
      (ack == c.w.ack(dp.attempts - 1)
       || (c.port == Swd && c.w.ack(dp.attempts - 1) == ACK_OK && ack == ACK_PARITY))
  }

  lemma TransactAnswered(c: Config, dp: Dp, request: byte, data: word)
    requires c.port != Disabled
    ensures var r := Transact(c.w, c.port, dp, request, data);
      Answered(c, r.dp, r.ack) && r.dp.attempts == dp.attempts + 1
  {
    hide Odd;
  }

  lemma {:induction false} RetryAnswered(c: Config, dp: Dp, request: byte, data: word, retries: nat)
    requires c.port != Disabled
    ensures var r := Retry(c.w, c.port, dp, request, data, retries);
      Answered(c, r.dp, r.ack) && r.dp.attempts > dp.attempts
    decreases retries
  {
    hide Transact, Answered;
    TransactAnswered(c, dp, request, data);
    var r := Transact(c.w, c.port, dp, request, data);
    if r.ack == ACK_WAIT && retries > 0 {
      RetryAnswered(c, r.dp, request, r.data, retries - 1);
    }
  }

  lemma WireAnswered(c: Config, e: Engine, request: byte)
    requires c.port != Disabled
    ensures var w := Wire(c, e, request);
      Answered(c, w.dp, w.ack) && w.dp.attempts > e.dp.attempts && w.ack < 16
  {
    hide Retry, Answered;
    RetryAnswered(c, e.dp, request, e.data, c.waitRetries);
  }

  lemma {:induction false} PollAnswered(c: Config, e: Engine, request: byte, value: word, tries: nat)
    requires c.port != Disabled
    ensures var p := Poll(c, e, request, value, tries);
      Answered(c, p.dp, p.ack) && p.dp.attempts > e.dp.attempts && p.ack < 16
    decreases tries
  {
    hide Wire, And, Answered;
    WireAnswered(c, e, request);
    var w := Wire(c, e, request);
    if !(w.ack != ACK_OK || And(w.data, w.mask) == value || tries == 0) {
      PollAnswered(c, w, request, value, tries - 1);
    }
  }

  // DAP_Transfer.

  /** A request that is carried out leaves OK, from the target if there was a transaction; one that stops the command
      leaves what the target answered last, with 16 added if it is a value match and the last value does not match. */
  ghost predicate AckAfter(c: Config, e: Engine, r: Outcome, request: byte) {
    && r.e.dp.attempts >= e.dp.attempts
    && (r.Going? ==>
      && r.e.ack == ACK_OK
      && (r.e.dp.attempts > e.dp.attempts ==> Answered(c, r.e.dp, ACK_OK))
      && (r.e.dp.attempts == e.dp.attempts ==> !IsRead(request) && IsMatchMask(request)))
    && (r.Stopped? ==>
      && r.e.dp.attempts > e.dp.attempts && r.e.ack != ACK_OK && !r.e.pending
      && (r.e.ack < 16 ==> Answered(c, r.e.dp, r.e.ack))
      && (r.e.ack >= 16 ==>
        && Answered(c, r.e.dp, r.e.ack - 16) && r.e.ack < 32
        && IsRead(request) && IsMatchValue(request) && And(r.e.data, r.e.mask) != e.data))
  }

  /** What is still to be collected or acknowledged after a request. */
  predicate Owing(c: Config, e: Engine, r: Outcome, request: byte) {
    r.Going? ==>
      && r.e.pending == (IsRead(request) && !IsMatchValue(request) && IsPosted(c.port, request))
      && r.e.ackPending == (!IsRead(request) && (!IsMatchMask(request) || e.ackPending))
  }

  lemma CollectAnswered(c: Config, e: Engine)
    requires c.port != Disabled && e.request.Valid()
    ensures var r := Collect(c, e);
      && r.e.ackPending == e.ackPending && r.e.dp.attempts >= e.dp.attempts && r.e.done == e.done && r.e.mask == e.mask
      && (r.Going? && e.pending ==> r.e.ack == ACK_OK && Answered(c, r.e.dp, ACK_OK) && r.e.dp.attempts > e.dp.attempts)
      && (r.Going? && !e.pending ==> r.e == e)
      && (r.Going? || r.Stopped? ==> !r.e.pending)
      && (r.Stopped? ==>
        r.e.ack < 16 && r.e.ack != ACK_OK && Answered(c, r.e.dp, r.e.ack) && r.e.dp.attempts > e.dp.attempts)
  {
    hide Retry, Answered;
    WireAnswered(c, e, RDBUFF_READ);
  }

  lemma WriteAnswered(c: Config, e: Engine, request: byte)
    requires c.port != Disabled && e.request.Valid() && !e.pending && !IsRead(request)
    ensures AckAfter(c, e, Write(c, e, request), request) && Owing(c, e, Write(c, e, request), request)
  {
    hide Retry, Answered;
    WireAnswered(c, e, request);
  }

  lemma NormalAnswered(c: Config, e: Engine, request: byte)
    requires c.port != Disabled && e.request.Valid() && !e.pending && IsRead(request) && !IsMatchValue(request)
    ensures AckAfter(c, e, NormalRead(c, e, request), request) && Owing(c, e, NormalRead(c, e, request), request)
  {
    hide Retry, Answered;
    WireAnswered(c, e, request);
  }

  lemma MatchAnswered(c: Config, e: Engine, request: byte)
    requires c.port != Disabled && e.request.Valid() && !e.pending && IsRead(request) && IsMatchValue(request)
    ensures AckAfter(c, e, MatchRead(c, e, request), request) && Owing(c, e, MatchRead(c, e, request), request)
  {
    hide Retry, Answered, Poll, And;
    WireAnswered(c, e, request);
    PollAnswered(c, e, request, e.data, c.matchRetries);
    PollAnswered(c, Wire(c, e, request), request, e.data, c.matchRetries);
  }

  lemma ExecuteAnswered(c: Config, e: Engine, request: byte)
    requires c.port != Disabled && e.request.Valid() && !e.pending
    ensures AckAfter(c, e, Execute(c, e, request), request) && Owing(c, e, Execute(c, e, request), request)
  {
    hide Write, MatchRead, NormalRead, Answered, And;
    if !IsRead(request) {
      WriteAnswered(c, e, request);
    } else if IsMatchValue(request) {
      MatchAnswered(c, e, request);
    } else {
      NormalAnswered(c, e, request);
    }
  }

  /** The loop, as far as it has come: either nothing has gone over the wire, or the target said OK last. */
  ghost predicate Settled(c: Config, e: Engine, base: nat) {
    && e.dp.attempts >= base
    && (e.dp.attempts > base ==> e.ack == ACK_OK && Answered(c, e.dp, ACK_OK))
    && (e.dp.attempts == base ==> !e.pending && !e.ackPending && (e.ack == 0 || e.ack == ACK_OK))
  }

  /** How the loop ends: settled, or with what the target answered last, a value that does not match marked by 16. */
  ghost predicate LoopAcked(c: Config, r: Outcome, base: nat) {
    && (r.Going? ==> Settled(c, r.e, base))
    && (r.Stopped? ==>
      && r.e.dp.attempts > base && r.e.ack != ACK_OK && !r.e.pending && r.e.ack < 32
      && Answered(c, r.e.dp, if r.e.ack < 16 then r.e.ack else r.e.ack - 16))
  }

  lemma IterationAcked(c: Config, e: Engine, base: nat)
    requires c.port != Disabled && e.request.Valid() && e.count > 0 && Settled(c, e, base)
    ensures LoopAcked(c, Iteration(c, e), base)
    ensures Iteration(c, e).Going? ==> Iteration(c, e).e.ack == ACK_OK
    ensures Iteration(c, e).Going? ==>
      var request := Fetch(e).0;
      Iteration(c, e).e.ackPending == (!IsRead(request) && (!IsMatchMask(request) || e.ackPending))
  {
    hide Collect, Execute, And;
    var f := Fetch(e).1;
    FetchKeeps(e);
    if f.Going? {
      CollectAnswered(c, f.e);
      var g := Collect(c, f.e);
      if g.Going? {
        ExecuteAnswered(c, g.e, Fetch(e).0);
      }
    }
  }

  lemma FetchKeeps(e: Engine)
    requires e.count > 0 && e.request.Valid()
    ensures var f := Fetch(e).1.e;
      f.dp == e.dp && f.ack == e.ack && f.pending == e.pending && f.ackPending == e.ackPending
  {
  }

  lemma {:induction false} LoopIsAcked(c: Config, e: Engine, base: nat)
    requires c.port != Disabled && e.request.Valid() && Settled(c, e, base)
    ensures LoopAcked(c, Loop(c, e), base)
    ensures Loop(c, e).Going? ==> Loop(c, e).e.ack == if e.count == 0 then e.ack else ACK_OK
    decreases e.count
  {
    hide Iteration, Answered, Settled;
    if e.count > 0 {
      IterationAcked(c, e, base);
      var r := Iteration(c, e);
      if r.Going? {
        LoopIsAcked(c, r.e, base);
      }
    }
  }

  /** DAP_Transfer on a connected port, from its first request on. If there was a transaction, what is reported is what
      the last one was answered, plus 16 if the command stopped at a value that does not match; if there was none, it is
      0 for no request at all and OK for writes of the mask. */
  lemma ReportsLastAck(c: Config, e: Engine)
    requires c.port != Disabled && e.request.Valid() && e.ack == 0 && !e.pending && !e.ackPending
    ensures var r := Run(c, e);
      r.Going? ==>
        && (r.e.dp.attempts == e.dp.attempts ==> r.e.ack == if e.count == 0 then 0 else ACK_OK)
        && (r.e.dp.attempts > e.dp.attempts ==>
          r.e.ack < 32 && Answered(c, r.e.dp, if r.e.ack < 16 then r.e.ack else r.e.ack - 16))
  {
    hide Loop, Retry, Drain, Answered;
    LoopIsAcked(c, e, e.dp.attempts);
    var l := Loop(c, e);
    if !l.Failed? {
      FinishAnswered(c, l.e);
    }
  }

  /** The end of the command: if a write has not been confirmed, or a word not collected, RDBUFF is read, and its
      acknowledge is the one reported. */
  lemma FinishAnswered(c: Config, e: Engine)
    requires c.port != Disabled && e.request.Valid()
    ensures var r := Finish(c, e);
      r.Going? ==>
        if e.ack == ACK_OK && (e.pending || e.ackPending)
        then r.e.dp.attempts > e.dp.attempts && r.e.ack < 16 && Answered(c, r.e.dp, r.e.ack)
        else r.e.dp == e.dp && r.e.ack == e.ack
  {
    hide Retry, Drain, Answered;
    var d := Drain(e.request, e.count);
    if d.Some? {
      WireAnswered(c, e.(request := d.value, count := 0), RDBUFF_READ);
    }
  }

  /** So a fault that the target only finds out about after the last write is reported: the command makes one more
      transaction than its loop, and reports the acknowledge of that. */
  lemma LastWriteConfirmed(c: Config, e: Engine)
    requires c.port != Disabled && e.request.Valid() && e.ack == 0 && !e.pending && !e.ackPending
    requires Loop(c, e).Going? && Loop(c, e).e.ackPending && Run(c, e).Going?
    ensures var l, r := Loop(c, e), Run(c, e);
      r.e.dp.attempts > l.e.dp.attempts && Answered(c, r.e.dp, r.e.ack)
  {
    hide Loop, Retry, Drain, Answered;
    LoopIsAcked(c, e, e.dp.attempts);
    FinishAnswered(c, Loop(c, e).e);
  }

  /** A write that is the last request is what the loop leaves unconfirmed. */
  lemma WriteLeavesUnconfirmed(c: Config, e: Engine, base: nat)
    requires c.port != Disabled && e.request.Valid() && e.count == 1 && Settled(c, e, base)
    requires Loop(c, e).Going? && !IsRead(Fetch(e).0) && !IsMatchMask(Fetch(e).0)
    ensures Loop(c, e).e.ackPending
  {
    hide Iteration, Fetch, Settled;
    IterationAcked(c, e, base);
    assert Loop(c, Iteration(c, e).e) == Going(Iteration(c, e).e);
  }

  // DAP_TransferBlock.

  lemma BlockWireAnswered(c: Config, b: Block)
    requires c.port != Disabled
    ensures var w := BlockWire(c, b); Answered(c, w.dp, w.ack) && w.dp.attempts > b.dp.attempts
  {
    hide Retry, Answered;
    RetryAnswered(c, b.dp, b.code, b.data, c.waitRetries);
  }

  lemma {:induction false} WriteLoopAnswered(c: Config, b: Block)
    requires c.port != Disabled && b.Valid()
    ensures var r := WriteLoop(c, b);
      && r.b.done >= b.done
      && (!r.Broken? ==> r.b.dp.attempts >= b.dp.attempts + (r.b.done - b.done) + (if r.Cut? then 1 else 0))
      && (r.Cut? ==> Answered(c, r.b.dp, r.b.ack))
    decreases b.count
  {
    hide BlockWire, Answered, FromLe32;
    if b.count > 0 {
      var got := b.request.Get(4);
      if got.Some? {
        BlockWireAnswered(c, b.(count := b.count - 1, data := FromLe32(got.value.0), request := got.value.1));
        var r := WriteTurn(c, b);
        if r.Through? {
          WriteLoopAnswered(c, r.b);
        }
      }
    }
  }

  lemma {:induction false} ReadLoopAnswered(c: Config, b: Block)
    requires c.port != Disabled && b.Valid()
    ensures var r := ReadLoop(c, b);
      && r.b.done >= b.done
      && (!r.Broken? ==> r.b.dp.attempts >= b.dp.attempts + (r.b.done - b.done) + (if r.Cut? then 1 else 0))
      && (!r.Broken? && b.count > 0 ==> Answered(c, r.b.dp, r.b.ack) && r.b.dp.attempts > b.dp.attempts)
      && (b.count == 0 ==> r == Through(b))
    decreases b.count
  {
    hide BlockWire, Answered, Le32;
    if b.count > 0 {
      var b1 := b.(count := b.count - 1,
        code := if b.count == 1 && IsPosted(c.port, b.code) then RDBUFF_READ else b.code);
      BlockWireAnswered(c, b1);
      var r := ReadTurn(c, b);
      if r.Through? {
        ReadLoopAnswered(c, r.b);
      }
    }
  }

  /** What is reported is what the last transaction was answered. A block that is written makes one transaction more
      than it reports words, the read of RDBUFF after the last word; so does a posted one that is read, the first. */
  lemma BlockReportsLastAck(c: Config, b: Block)
    requires c.port != Disabled && b.Valid() && b.done == 0
    requires !IsRead(b.code) || b.count > 0 || IsPosted(c.port, b.code)
    ensures var r := RunBlock(c, b);
      !r.Broken? ==>
        && Answered(c, r.b.dp, r.b.ack) && r.b.dp.attempts > b.dp.attempts
        && r.b.dp.attempts >= b.dp.attempts + r.b.done + (if !IsRead(b.code) then 1 else 0)
        && (IsRead(b.code) && IsPosted(c.port, b.code) ==> r.b.dp.attempts >= b.dp.attempts + r.b.done + 1)
  {
    hide BlockWire, Answered, ReadLoop, WriteLoop, CancelWords;
    if IsRead(b.code) {
      BlockWireAnswered(c, b);
      ReadLoopAnswered(c, b);
      ReadLoopAnswered(c, BlockWire(c, b));
    } else {
      WriteLoopAnswered(c, b);
      var r := WriteLoop(c, b);
      BlockWireAnswered(c, r.b.(code := RDBUFF_READ));
    }
  }
}
