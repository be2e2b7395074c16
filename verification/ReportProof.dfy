/** What the host gets to see of a DAP_Transfer, and what it costs on the wire. */
module ReportProof {
  import opened Bits
  import opened DebugPort
  import opened RingBuffer
  import opened TransferSpec
  import opened TransferProof
  import opened FramingProof
  import opened OperandProof
  import opened WillingProof

  /** One data word for each completed normal read. */
  lemma {:induction false} OneWordPerRead(c: Config, s: Ref, rs: seq<Request>, pending: bool)
    requires RunUsed(c, s, rs, pending).Some?
    ensures |RunUsed(c, s, rs, pending).value.words| == |s.words| + NormalReads(rs)
    decreases |rs|
  {
    hide And, MatchOne;
    if rs != [] {
      var used := UsedOperand(s, rs[0], pending);
      MatchOneKeeps(c, s, rs[0].code, used, c.matchRetries);
      OneWordPerRead(c, RunOne(c, s, rs[0].code, used).value, rs[1..], LeavesPending(c.port, rs[0].code));
    }
  }

  /** A command that reports OK has put out exactly one word for each normal read. */
  lemma OkPutsEveryWord(c: Config, rs: seq<Request>, rest: seq<byte>, out: seq<word>, s: Ref, s1: Ref, r: Outcome,
    n: nat)
    requires n <= |rs| && RunUsed(c, s, rs[..n], false) == Some(s1) && s.words == []
    requires Reported(c, rs, rest, out, s1, r, n) && r.e.ack == ACK_OK
    ensures |out| == NormalReads(rs) && r.e.request.items == rest + LeAll(out)
  {
    hide LeAll, Extends;
    assert rs[..n] == rs;
    OneWordPerRead(c, s, rs, false);
  }

  /** The command succeeds and leaves no word behind the request. */
  predicate Wordless(r: Outcome, rest: seq<byte>) {
    r.Going? && r.e.request.items == rest
  }

  lemma WordlessWithout(r: Outcome, rest: seq<byte>, put: seq<word>)
    requires r.Going? && r.e.request.items == rest + LeAll(put)
    ensures Wordless(r, rest) <==> put == []
  {
    hide LeAll;
    LeAllLength(put);
    LeAllEmpty();
    assert rest + [] == rest;
  }

  /** No target makes a command put out a word, whatever it acknowledges, if and only if it comes to no normal read on
      any of them: each one is preceded by a value match that cannot be met. */
  lemma WordlessIffNoRead(port: Port, waitRetries: nat, matchRetries: nat, e: Engine, rs: seq<Request>, rest: seq<byte>)
    requires port != Disabled && e.count == |rs| && e.done == 0 && e.ack == 0 && !e.pending
    requires e.request.Valid() && e.request.items == EncodeAll(rs) + rest
    requires e.request.got + |EncodeAll(rs)| <= e.request.cap
    ensures !ReadReached(port, e.mask, Fixed(e.dp.readBuf), rs)
      <==> forall w: World :: Detectable(w) ==> Wordless(Run(Config(w, port, waitRetries, matchRetries), e), rest)
  {
    hide Run, ReadReached, Wordless, Detectable, EncodeAll;
    var held := Fixed(e.dp.readBuf);
    assert Fulfils(held, e.dp.readBuf);
    if ReadReached(port, e.mask, held, rs) {
      var w := Player(|e.dp.log|, Script(port, e.mask, held, rs, Nothing).0);
      ReadNotWordless(Config(w, port, waitRetries, matchRetries), e, rs, rest);
    } else {
      forall w: World | Detectable(w)
        ensures Wordless(Run(Config(w, port, waitRetries, matchRetries), e), rest)
      {
        NoReadWordless(Config(w, port, waitRetries, matchRetries), e, rs, rest);
      }
    }
  }

  lemma NoReadWordless(c: Config, e: Engine, rs: seq<Request>, rest: seq<byte>)
    requires c.port != Disabled && Detectable(c.w) && e.count == |rs| && e.done == 0 && e.ack == 0 && !e.pending
    requires e.request.Valid() && e.request.items == EncodeAll(rs) + rest
    requires e.request.got + |EncodeAll(rs)| <= e.request.cap
    requires !ReadReached(c.port, e.mask, Fixed(e.dp.readBuf), rs)
    ensures Wordless(Run(c, e), rest)
  {
    hide Run, ReadReached, Wordless, Detectable, EncodeAll, LeAll, WordsFit, Before, RunUsed, Extends;
    var s := Ref(e.dp.log, e.dp.readBuf, e.mask, []);
    RoomierBefore(e, rs, rest);
    var put := RunTwin(c, e, Roomier(e), rs, rest, rest);
    var n, s1, out := SequentialInRoom(c, Roomier(e), s, rs, rest);
    NoReadNoWord(c, s, Fixed(e.dp.readBuf), rs, n);
    LeAllLength(put);
    LeAllLength(out);
    WordlessWithout(Run(c, e), rest, put);
  }

  lemma ReadNotWordless(c: Config, e: Engine, rs: seq<Request>, rest: seq<byte>)
    requires c.port != Disabled && e.count == |rs| && e.done == 0 && e.ack == 0 && !e.pending
    requires e.request.Valid() && e.request.items == EncodeAll(rs) + rest
    requires e.request.got + |EncodeAll(rs)| <= e.request.cap
    requires ReadReached(c.port, e.mask, Fixed(e.dp.readBuf), rs)
    requires Possible(Fixed(e.dp.readBuf))
    requires c.w == Player(|e.dp.log|, Script(c.port, e.mask, Fixed(e.dp.readBuf), rs, Nothing).0)
    ensures Detectable(c.w) && !Wordless(Run(c, e), rest)
  {
    hide Run, ReadReached, EncodeAll, LeAll, WordsFit, Before, Script;
    var s := Ref(e.dp.log, e.dp.readBuf, e.mask, []);
    var held := Fixed(e.dp.readBuf);
    PlayerWilling(c.w, |e.dp.log|, Script(c.port, e.mask, held, rs, Nothing).0);
    RoomierBefore(e, rs, rest);
    assert s.words == s.words + [];
    var word := RunWord(c, Roomier(e), s, held, rs, rest);
    var put := RunTwin(c, e, Roomier(e), rs, rest, rest);
    LeAllLength(put);
    LeAllLength(word);
    if Run(c, e).Going? {
      WordlessWithout(Run(c, e), rest, put);
    }
  }

  lemma PlayerWilling(w: World, base: nat, script: seq<word>)
    requires w == Player(base, script)
    ensures Willing(w) && Detectable(w) && Plays(w, base, script)
  {
    assert NoiseOn([], 33) == Repeat(false, 33);
  }

  /** The words behind the request are taken for requests when the host has sent fewer than it announced: here a
      second request that was never sent is supplied by the register the first one reads. */
  lemma MissingRequestComesFromTarget(c: Config, e: Engine, request: byte)
    requires c.port == Swd && Detectable(c.w)
    requires IsRead(request) && !IsMatchValue(request) && !IsAp(request) && !IsRdBuff(AccessOf(request, 0))
    requires e.request.Valid() && e.request.items == [request] && e.request.Room(4) && e.count == 2 && !e.pending
    requires Wire(c, e, request).ack == ACK_OK
    ensures var v := c.w.answer(e.dp.log + [AccessOf(request, 0)]);
      var first := Iteration(c, e);
      first.Going? && first.e.count == 1 && Fetch(first.e).0 == v % 0x100
  {
    hide Odd, And, Retry;
    var r := Request(request, 0);
    assert e.request.items == Encode(r) + [];
    FetchEncoded(e, r, []);
    var f := Fetch(e).1.e;
    WireOk(c, f, request, Ref(e.dp.log, e.dp.readBuf, e.mask, []));
    AppendRuns(Wire(c, f, request), 4);
    LeHead(Wire(c, f, request).data);
  }

  lemma LeHead(v: word)
    ensures LeAll([v])[0] == v % 0x100
  {
    assert LeAll([v]) == Le32(v) + LeAll([]);
  }

  // The number of wire transactions.

  lemma WireCost(c: Config, e: Engine, request: byte)
    ensures e.dp.attempts <= Wire(c, e, request).dp.attempts <= e.dp.attempts + c.waitRetries + 1
  {
    hide JtagTransact, SwdTransact;
    if c.port != Disabled {
      RetryExactlyOnce(c.w, c.port, e.dp, request, e.data, c.waitRetries);
    }
  }

  /** n port transfers cost no more than this. */
  function Budget(c: Config, n: nat): (m: nat) {
    n * (c.waitRetries + 1)
  }

  lemma BudgetAdd(c: Config, m: nat, n: nat)
    ensures Budget(c, m + n) == Budget(c, m) + Budget(c, n)
    ensures Budget(c, 1) == c.waitRetries + 1
  {
    assert (m + n) * (c.waitRetries + 1) == m * (c.waitRetries + 1) + n * (c.waitRetries + 1);
  }

  lemma {:induction false} PollCost(c: Config, e: Engine, request: byte, value: word, tries: nat)
    ensures Poll(c, e, request, value, tries).dp.attempts <= e.dp.attempts + Budget(c, tries + 1)
    decreases tries
  {
    hide Wire, And, Budget;
    WireCost(c, e, request);
    BudgetAdd(c, tries, 1);
    var e1 := Wire(c, e, request);
    if !(e1.ack != ACK_OK || And(e1.data, e1.mask) == value || tries == 0) {
      PollCost(c, e1, request, value, tries - 1);
    }
  }

  lemma CollectCost(c: Config, e: Engine)
    requires e.request.Valid()
    ensures Collect(c, e).e.dp.attempts <= e.dp.attempts + Budget(c, 1)
  {
    hide Wire, Budget;
    WireCost(c, e, RDBUFF_READ);
    BudgetAdd(c, 0, 1);
  }

  lemma ExecuteCost(c: Config, e: Engine, request: byte)
    requires e.request.Valid()
    ensures Execute(c, e, request).e.dp.attempts <= e.dp.attempts + Budget(c, c.matchRetries + 2)
  {
    hide Wire, Budget, Poll, And;
    WireCost(c, e, request);
    BudgetAdd(c, c.matchRetries + 1, 1);
    PollCost(c, e, request, e.data, c.matchRetries);
    PollCost(c, Wire(c, e, request), request, e.data, c.matchRetries);
  }

  lemma {:induction false} LoopCost(c: Config, e: Engine)
    requires e.request.Valid()
    ensures Loop(c, e).e.dp.attempts <= e.dp.attempts + Budget(c, e.count * (c.matchRetries + 3))
    ensures Loop(c, e).Stopped? ==> Loop(c, e).e.count < e.count
    decreases e.count
  {
    hide Collect, Execute, Budget;
    if e.count > 0 {
      var k := c.matchRetries + 3;
      assert e.count * k == (e.count - 1) * k + k;
      BudgetAdd(c, (e.count - 1) * k, k);
      BudgetAdd(c, c.matchRetries + 2, 1);
      var f := Fetch(e).1;
      if f.Going? {
        CollectCost(c, f.e);
        var g := Collect(c, f.e);
        if g.Going? {
          ExecuteCost(c, g.e, Fetch(e).0);
        }
        if Iteration(c, e).Going? {
          LoopCost(c, Iteration(c, e).e);
        }
      }
    }
  }

  /** Whatever the target answers, a DAP_Transfer of count requests ends within this many wire transactions. */
  lemma TransferCost(c: Config, e: Engine)
    requires e.request.Valid()
    ensures Run(c, e).e.dp.attempts
      <= e.dp.attempts + (e.count * (c.matchRetries + 3) + 1) * (c.waitRetries + 1)
  {
    hide Loop, Wire, Drain;
    LoopCost(c, e);
    var r := Loop(c, e);
    BudgetAdd(c, e.count * (c.matchRetries + 3), 1);
    FinishCost(c, r.e);
    FinishCost(c, e);
    CostGrows(e.count * (c.matchRetries + 3), c.waitRetries + 1);
  }

  lemma CostGrows(m: nat, w: nat)
    ensures w <= (m + 1) * w && (m + 1) * w == m * w + w
  {
  }

  lemma FinishCost(c: Config, e: Engine)
    requires e.request.Valid()
    ensures Finish(c, e).e.dp.attempts <= e.dp.attempts + Budget(c, 1)
  {
    hide Wire, Budget, Drain;
    BudgetAdd(c, 0, 1);
    var d := Drain(e.request, e.count);
    if d.Some? {
      WireCost(c, e.(request := d.value, count := 0), RDBUFF_READ);
    }
  }
}
