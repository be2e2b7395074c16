/** DAP_Transfer over a target that answers every transaction with OK and no noise: nothing but a value match that
    fails, or a word for which there is no place, ends it early. With such targets the conditions under which the
    command goes wrong are shown to be exact. */
module WillingProof {
  import opened Bits
  import opened DebugPort
  import opened RingBuffer
  import opened TransferSpec
  import opened TransferProof
  import opened FramingProof
  import opened OperandProof

  ghost predicate Willing(w: World) {
    forall k :: w.ack(k) == ACK_OK && NoiseOn(w.noise(k), 33) == Repeat(false, 33)
  }

  lemma WireGoes(c: Config, e: Engine, request: byte)
    requires c.port != Disabled && Willing(c.w)
    ensures Detectable(c.w) && Wire(c, e, request).ack == ACK_OK
  {
    hide Odd;
    RetryExactlyOnce(c.w, c.port, e.dp, request, e.data, c.waitRetries);
    var made := Retry(c.w, c.port, e.dp, request, e.data, c.waitRetries).dp.attempts - e.dp.attempts;
    var dp := e.dp.(attempts := e.dp.attempts + made - 1);
    OddOfNone(33);
    if c.port == Swd && IsRead(request) {
      ReadNoise(c.w, dp, request, e.data);
    }
  }

  lemma {:induction false} PollPostedGoes(c: Config, e: Engine, s: Ref, request: byte, value: word, tries: nat)
    requires c.port != Disabled && Willing(c.w) && e.mask == s.mask && IsRead(request) && IsPosted(c.port, request)
    requires var (s1, v) := ReadOne(c, s, AccessOf(request, 0)); Tracks(c, e.dp, s1) && e.dp.readBuf == v
    requires MatchOne(c, s, request, value, tries).Some?
    ensures var p := Poll(c, e, request, value, tries); p.ack == ACK_OK && And(p.data, e.mask) == value
    decreases tries
  {
    hide And, Retry, Odd, AccessOf;
    var (s1, v) := ReadOne(c, s, AccessOf(request, 0));
    SameRead(request, e.data);
    WireGoes(c, e, request);
    WireOk(c, e, request, s1);
    var e1 := Wire(c, e, request);
    if And(e1.data, e1.mask) != value && tries > 0 {
      PollPostedGoes(c, e1, s1, request, value, tries - 1);
    }
  }

  lemma {:induction false} PollDirectGoes(c: Config, e: Engine, s: Ref, request: byte, value: word, tries: nat)
    requires c.port != Disabled && Willing(c.w) && e.mask == s.mask && IsRead(request) && !IsPosted(c.port, request)
    requires Tracks(c, e.dp, s) && MatchOne(c, s, request, value, tries).Some?
    ensures var p := Poll(c, e, request, value, tries); p.ack == ACK_OK && And(p.data, e.mask) == value
    decreases tries
  {
    hide And, Retry, Odd, AccessOf;
    var (s1, v) := ReadOne(c, s, AccessOf(request, 0));
    SameRead(request, e.data);
    WireGoes(c, e, request);
    WireOk(c, e, request, s);
    var e1 := Wire(c, e, request);
    if And(e1.data, e1.mask) != value && tries > 0 {
      PollDirectGoes(c, e1, s1, request, value, tries - 1);
    }
  }

  lemma MatchGoes(c: Config, e: Engine, s: Ref, request: byte)
    requires c.port != Disabled && Willing(c.w) && Tracks(c, e.dp, s) && e.mask == s.mask
    requires e.request.Valid() && IsRead(request) && MatchOne(c, s, request, e.data, c.matchRetries).Some?
    ensures MatchRead(c, e, request).Going?
  {
    hide And, Retry, Odd, AccessOf, Poll, MatchOne, ReadOne, Tracks;
    SameRead(request, e.data);
    if IsPosted(c.port, request) {
      WireGoes(c, e, request);
      WireOk(c, e, request, s);
      PollPostedGoes(c, Wire(c, e, request), s, request, e.data, c.matchRetries);
    } else {
      PollDirectGoes(c, e, s, request, e.data, c.matchRetries);
    }
  }

  /** With room for its words, a request is stopped only if the reference cannot carry it out. */
  lemma TurnGoes(c: Config, f: Engine, s: Ref, out: seq<word>, r: Request)
    requires c.port != Disabled && Willing(c.w) && Agrees(c, f, s, out) && (CarriesData(r.code) ==> f.data == r.operand)
    requires f.request.Valid() && f.request.Room(4 + Bytes(f.pending))
    requires RunOne(c, s, r.code, UsedOperand(s, r, f.pending)).Some?
    ensures Collect(c, f).Going? && Turn(c, f, r.code).Going?
  {
    hide And, Retry, Odd, AccessOf, Append, Poll, MatchOne, ReadOne;
    WireGoes(c, f, RDBUFF_READ);
    CollectRuns(c, f, s, out, 4);
    var g := Collect(c, f);
    CollectGoes(c, f);
    WireGoes(c, g.e, r.code);
    if Matches(r) {
      RunOneMatch(c, s, r.code, UsedOperand(s, r, f.pending));
      MatchGoes(c, g.e, s, r.code);
    } else if IsRead(r.code) {
      AppendRuns(Wire(c, g.e, r.code), 4);
    }
  }

  lemma CollectGoes(c: Config, f: Engine)
    requires c.port != Disabled && Willing(c.w) && f.request.Valid()
    ensures !Collect(c, f).Stopped?
  {
    WireGoes(c, f, RDBUFF_READ);
  }

  /** With room for all words, a list the reference can carry out is carried out. */
  lemma {:induction false} LoopGoes(c: Config, e: Engine, s: Ref, out: seq<word>, rs: seq<Request>, rest: seq<byte>)
    requires c.port != Disabled && Willing(c.w) && Agrees(c, e, s, out) && e.count == |rs|
    requires e.request.Valid() && e.request.items == EncodeAll(rs) + rest && e.request.Room(Need(rs, e.pending))
    requires RunUsed(c, s, rs, e.pending).Some?
    ensures Loop(c, e).Going?
    decreases |rs|
  {
    hide And, Retry, Odd, AccessOf, RunOne, Iteration, LeAll, Le32, Agrees, UsedOperand, Encode, EncodeAll;
    if rs != [] {
      IterationGoes(c, e, s, out, rs, rest);
      var put := IterationRuns(c, e, s, out, rs, rest);
      var r := Iteration(c, e);
      var s0 := RunOne(c, s, rs[0].code, UsedOperand(s, rs[0], e.pending)).value;
      assert EncodeAll(rs[1..]) + rest + LeAll(put) == EncodeAll(rs[1..]) + (rest + LeAll(put));
      LoopGoes(c, r.e, s0, out + put, rs[1..], rest + LeAll(put));
    }
  }

  lemma IterationGoes(c: Config, e: Engine, s: Ref, out: seq<word>, rs: seq<Request>, rest: seq<byte>)
    requires c.port != Disabled && Willing(c.w) && Agrees(c, e, s, out) && rs != [] && e.count == |rs|
    requires e.request.Valid() && e.request.items == EncodeAll(rs) + rest && e.request.Room(Need(rs, e.pending))
    requires RunOne(c, s, rs[0].code, UsedOperand(s, rs[0], e.pending)).Some?
    ensures Detectable(c.w) && Iteration(c, e).Going?
  {
    hide RunOne, LeAll, Le32, UsedOperand, Encode, EncodeAll, Fetch, Turn, CarriesData, Tracks;
    FirstEncoded(rs, rest);
    FetchEncoded(e, rs[0], EncodeAll(rs[1..]) + rest);
    TurnIs(c, e);
    WireGoes(c, e, RDBUFF_READ);
    TurnGoes(c, Fetch(e).1.e, s, out, rs[0]);
  }

  lemma FinishGoes(c: Config, e: Engine)
    requires c.port != Disabled && Willing(c.w) && e.request.Valid() && e.count == 0 && e.ack == ACK_OK
    ensures Finish(c, e).Going? ==> Finish(c, e).e.ack == ACK_OK
  {
    hide Retry, Append;
    WireGoes(c, e, RDBUFF_READ);
    assert Drain(e.request, 0) == Some(e.request);
    assert e.(request := e.request, count := 0) == e;
    AppendKeeps(Wire(c, e, RDBUFF_READ));
  }

  lemma AppendKeeps(e: Engine)
    requires e.request.Valid()
    ensures Append(e).e == e.(request := Append(e).e.request)
  {
  }

  /** Exactly when a word finds no place: if target and list let everything be carried out, the command fails if and
      only if the check made on list and buffer beforehand fails. */
  lemma FailsIffNoPlace(c: Config, e: Engine, s: Ref, rs: seq<Request>, rest: seq<byte>)
    requires c.port != Disabled && Willing(c.w) && RunUsed(c, s, rs, false).Some?
    requires Tracks(c, e.dp, s) && e.mask == s.mask && s.words == []
    requires e.count == |rs| && e.ack == 0 && !e.pending
    requires e.request.Valid() && e.request.items == EncodeAll(rs) + rest
    requires e.request.got + |EncodeAll(rs)| <= e.request.cap
    ensures |EncodeAll(rs)| <= |e.request.items|
    ensures Run(c, e).Failed? <==> !WordsFit(c.port, e.request.cap, e.request.got, |e.request.items|, rs, false)
  {
    hide Loop, Finish, WordsFit, EncodeAll, RunUsed, Before, Tracks;
    RoomierBefore(e, rs, rest);
    var e2 := Roomier(e);
    var put := RunTwin(c, e, e2, rs, rest, rest);
    if rs == [] {
      NothingFits(c.port, e.request.cap, e.request.got, |e.request.items|);
    } else {
      assert s.words == s.words + [];
      LoopGoes(c, e2, s, [], rs, rest);
      LoopAck(c, e2, rs, rest);
      FinishGoes(c, Loop(c, e2).e);
    }
  }

  lemma NothingFits(port: Port, cap: nat, got: nat, len: nat)
    requires cap > 0
    ensures EncodeAll([]) == [] && WordsFit(port, cap, got, len, [], false)
  {
  }

  lemma LoopAck(c: Config, e: Engine, rs: seq<Request>, rest: seq<byte>)
    requires c.port != Disabled && Before(e, e, rs, rest, rest) && rs != []
    ensures e.request.Valid()
    ensures var r := Loop(c, e); r.Going? ==> r.e.ack == ACK_OK && r.e.count == 0
  {
    hide Loop, WordsFit;
    var put := LoopTwin(c, e, e, rs, rest, rest);
  }

  /** Four packets of 512 bytes fill the request buffer. If the first command in them is a DAP_Transfer of DP reads over
      SWD, its first word goes where the command id was, and the second finds no place. */
  lemma FullBufferTakesOneWord(a: Request, b: Request)
    requires IsDirect(Swd, a.code) && IsDirect(Swd, b.code)
    ensures |EncodeAll([a])| <= 2043 && |EncodeAll([a, b])| <= 2043
    ensures WordsFit(Swd, 2048, 5, 2043, [a], false) && !WordsFit(Swd, 2048, 5, 2043, [a, b], false)
  {
    assert [a, b][1..] == [b] && [a][1..] == [] && [b][1..] == [];
    assert EncodeAll([b]) == Encode(b) + EncodeAll([]) && EncodeAll([a]) == Encode(a) + EncodeAll([]);
    assert EncodeAll([a, b]) == Encode(a) + EncodeAll([b]);
    FitsHere(Swd, 2048, 5, 2043, [a], false);
    FitsHere(Swd, 2048, 5, 2043, [a, b], false);
    FitsHere(Swd, 2048, 6, 2046, [b], false);
  }

  // The words a command reads, in its response or not.

  /** A normal read that some target lets the command come to. */
  ghost predicate ReadReached(port: Port, mask: word, held: Held, rs: seq<Request>)
    decreases |rs|
  {
    rs != [] && (
      (IsRead(rs[0].code) && !IsMatchValue(rs[0].code))
      || ((Matches(rs[0]) ==> CanMatch(port, mask, held, rs[0]))
        && ReadReached(port, MaskAfter(mask, rs[0]), HeldAfter(port, mask, held, rs[0]), rs[1..])))
  }

  /** Without one, no word is read, whatever the target answers. */
  lemma {:induction false} NoReadNoWord(c: Config, s: Ref, held: Held, rs: seq<Request>, n: nat)
    requires c.port != Disabled && !ReadReached(c.port, s.mask, held, rs) && (c.port == Swd ==> Fulfils(held, s.rdbuff))
    requires n <= |rs| && RunUsed(c, s, rs[..n], false).Some?
    ensures RunUsed(c, s, rs[..n], false).value.words == s.words
    decreases |rs|
  {
    hide And, MatchOne, CanMatch, MaskAfter, HeldAfter, PendAfter, Fulfils, RunOne;
    if n > 0 {
      var r := rs[0];
      assert rs[..n][0] == r && rs[..n][1..] == rs[1..][..n - 1];
      assert UsedOperand(s, r, false) == r.operand;
      var s1 := RunOne(c, s, r.code, r.operand);
      if Matches(r) {
        RunOneMatch(c, s, r.code, r.operand);
        MatchOneKeeps(c, s, r.code, r.operand, c.matchRetries);
        if !CanMatch(c.port, s.mask, held, r) {
          MatchImpossible(c, s, held, r, c.matchRetries);
        }
      } else {
        WriteKeepsWords(c, s, r);
      }
      KnowsAfter(c, s, held, r, r.operand);
      NoReadNoWord(c, s1.value, HeldAfter(c.port, s.mask, held, r), rs[1..], n - 1);
    }
  }

  lemma WriteKeepsWords(c: Config, s: Ref, r: Request)
    requires !IsRead(r.code)
    ensures var s1 := RunOne(c, s, r.code, r.operand); s1.Some? && s1.value.words == s.words
    ensures !LeavesPending(c.port, r.code)
  {
  }

  /** On a willing target a word that is in flight is put out before anything else happens. */
  lemma PendingWord(c: Config, e: Engine, rs: seq<Request>, rest: seq<byte>) returns (put: seq<word>)
    requires c.port != Disabled && Willing(c.w) && Before(e, e, rs, rest, rest) && e.pending
    ensures e.request.Valid()
    ensures var r := Loop(c, e);
      r.e.count <= |rs| && Used(e.request, r.e.request, rs, r.e.count, rest, put)
      && (put != [] || (r.Going? && r.e.pending))
  {
    hide Loop, WordsFit, Used, TurnFits, Iteration, EncodeAll, LeAll;
    put := LoopTwin(c, e, e, rs, rest, rest);
    if rs == [] {
      LoopNone(c, e);
    } else {
      var first := IterationTwin(c, e, e, rs, rest, rest);
      FirstEncoded(rs, rest);
      FetchEncoded(e, rs[0], EncodeAll(rs[1..]) + rest);
      CollectGoes(c, Fetch(e).1.e);
      put := Onward(c, e, rs, rest, first);
    }
  }

  lemma LoopNone(c: Config, e: Engine)
    requires e.count == 0 && e.request.Valid()
    ensures Loop(c, e) == Going(e)
  {
  }

  /** The loop after its first turn, whatever it does. */
  lemma Onward(c: Config, e: Engine, rs: seq<Request>, rest: seq<byte>, first: seq<word>) returns (put: seq<word>)
    requires c.port != Disabled && Before(e, e, rs, rest, rest) && rs != []
    requires e.request.Valid() && var i := Iteration(c, e);
      && !i.Failed? && i.e.count == |rs| - 1 && Used(e.request, i.e.request, rs, |rs| - 1, rest, first)
      && (i.Going? ==> i.e.request.Room(Need(rs[1..], i.e.pending)))
    ensures var r := Loop(c, e);
      r.e.count <= |rs| && Used(e.request, r.e.request, rs, r.e.count, rest, put) && first <= put
  {
    hide WordsFit, Used, TurnFits, Iteration, EncodeAll, LeAll, Before;
    BeforeFits(c, e, e, rs, rest, rest);
    var i := Iteration(c, e);
    put := first;
    if i.Going? {
      AloneBefore(e, i.e, rs, rest, first);
      BeforeFits(c, i.e, i.e, rs[1..], rest + LeAll(first), rest + LeAll(first));
      var more := LoopTwin(c, i.e, i.e, rs[1..], rest + LeAll(first), rest + LeAll(first));
      JoinUsed(e.request, i.e.request, Loop(c, i.e).e.request, rs, Loop(c, i.e).e.count, rest, first, more);
      put := first + more;
    }
  }

  /** A willing target that plays the script brings the command to a normal read, and its word is put out. */
  lemma {:induction false} WordReached(c: Config, e: Engine, s: Ref, held: Held, rs: seq<Request>, rest: seq<byte>)
    returns (put: seq<word>)
    requires c.port != Disabled && Willing(c.w) && Agrees(c, e, s, s.words) && !e.pending
    requires Before(e, e, rs, rest, rest) && ReadReached(c.port, s.mask, held, rs) && Possible(held)
    requires var (ws, v) := Script(c.port, s.mask, held, rs, Nothing);
      Plays(c.w, |s.log|, ws) && (c.port == Swd ==> s.rdbuff == v)
    ensures e.request.Valid()
    ensures var r := Loop(c, e);
      r.e.count <= |rs| && Used(e.request, r.e.request, rs, r.e.count, rest, put)
      && (put != [] || (r.Going? && r.e.pending))
    decreases |rs|
  {
    hide Loop, WordsFit, Used, Iteration, EncodeAll, LeAll, Before, RunOne, Agrees, Plays, HeldAfter, MaskAfter,
      AnswersFor, Fulfils, CanMatch, IsPosted, Encode, ReadsBuffer, Tracks;
    BeforeFits(c, e, e, rs, rest, rest);
    var r := rs[0];
    if IsRead(r.code) && !IsMatchValue(r.code) {
      NormalReadRunsAlways(c, s, r);
      put := NormalWord(c, e, s, rs, rest);
    } else {
      var held1, pend1 := HeldAfter(c.port, s.mask, held, r), PendAfter(c.port, r.code);
      HeldPossible(c.port, s.mask, held, r);
      var (ws, v) := Script(c.port, MaskAfter(s.mask, r), held1, rs[1..], pend1);
      PlaysRest(c.w, |s.log|, AnswersFor(c.port, r, v), ws);
      assert Fulfils(held, Script(c.port, s.mask, held, rs, Nothing).1);
      StepPlayed(c, s, held, r, v);
      KnowsAfter(c, s, held, r, r.operand);
      IterationGoes(c, e, s, s.words, rs, rest);
      var first := IterationRuns(c, e, s, s.words, rs, rest);
      var i := Iteration(c, e);
      var s1 := RunOne(c, s, r.code, r.operand).value;
      var again := IterationTwin(c, e, e, rs, rest, rest);
      NotRead(c, e, s, i.e, s1, r, first);
      put := WordReached(c, i.e, s1, held1, rs[1..], rest + LeAll(again));
      JoinUsed(e.request, i.e.request, Loop(c, i.e).e.request, rs, Loop(c, i.e).e.count, rest, again, put);
      LoopStep(c, e);
      put := again + put;
    }
  }

  lemma LoopStep(c: Config, e: Engine)
    requires e.count > 0 && e.request.Valid() && Iteration(c, e).Going?
    ensures Loop(c, e) == Loop(c, Iteration(c, e).e)
  {
  }

  lemma NormalReadRunsAlways(c: Config, s: Ref, r: Request)
    requires IsRead(r.code) && !IsMatchValue(r.code)
    ensures RunOne(c, s, r.code, r.operand).Some?
  {
  }

  /** Nothing but a normal read leaves a word, in flight or put out. */
  lemma NotRead(c: Config, e: Engine, s: Ref, i: Engine, s1: Ref, r: Request, put: seq<word>)
    requires !IsRead(r.code) || IsMatchValue(r.code)
    requires RunOne(c, s, r.code, r.operand) == Some(s1) && Agrees(c, i, s1, s.words + put)
    requires i.pending == LeavesPending(c.port, r.code)
    ensures !i.pending && Agrees(c, i, s1, s1.words) && s1.words == s.words
  {
    hide And, MatchOne;
    MatchOneKeeps(c, s, r.code, r.operand, c.matchRetries);
  }

  /** The word of a normal read that comes first. */
  lemma NormalWord(c: Config, e: Engine, s: Ref, rs: seq<Request>, rest: seq<byte>) returns (put: seq<word>)
    requires c.port != Disabled && Willing(c.w) && Agrees(c, e, s, s.words) && !e.pending
    requires Before(e, e, rs, rest, rest) && rs != [] && IsRead(rs[0].code) && !IsMatchValue(rs[0].code)
    requires RunOne(c, s, rs[0].code, rs[0].operand).Some?
    ensures e.request.Valid()
    ensures var r := Loop(c, e);
      r.e.count <= |rs| && Used(e.request, r.e.request, rs, r.e.count, rest, put)
      && (put != [] || (r.Going? && r.e.pending))
  {
    hide Loop, WordsFit, Used, Iteration, EncodeAll, LeAll, Before, RunOne, Agrees, Encode, Tracks;
    BeforeFits(c, e, e, rs, rest, rest);
    IterationGoes(c, e, s, s.words, rs, rest);
    var first := IterationTwin(c, e, e, rs, rest, rest);
    var i := Iteration(c, e);
    if IsDirect(c.port, rs[0].code) {
      put := Onward(c, e, rs, rest, first);
    } else {
      LoopStep(c, e);
      put := PendingWord(c, i.e, rs[1..], rest + LeAll(first));
      JoinUsed(e.request, i.e.request, Loop(c, i.e).e.request, rs, Loop(c, i.e).e.count, rest, first, put);
      put := first + put;
    }
  }

  /** The command as a whole then puts a word out. */
  lemma RunWord(c: Config, e: Engine, s: Ref, held: Held, rs: seq<Request>, rest: seq<byte>) returns (put: seq<word>)
    requires c.port != Disabled && Willing(c.w) && Agrees(c, e, s, s.words) && !e.pending && e.ack == 0
    requires Before(e, e, rs, rest, rest) && ReadReached(c.port, s.mask, held, rs) && Possible(held)
    requires var (ws, v) := Script(c.port, s.mask, held, rs, Nothing);
      Plays(c.w, |s.log|, ws) && (c.port == Swd ==> s.rdbuff == v)
    ensures e.request.Valid() && Run(c, e).Going? && put != []
    ensures Run(c, e).e.request.items == rest + LeAll(put)
  {
    hide Loop, Finish, WordsFit, EncodeAll, LeAll, Before, ReadReached, Agrees, Plays, Used;
    BeforeFits(c, e, e, rs, rest, rest);
    put := RunTwin(c, e, e, rs, rest, rest);
    var first := WordReached(c, e, s, held, rs, rest);
    var twin := LoopTwin(c, e, e, rs, rest, rest);
    var l := Loop(c, e);
    if rs != [] {
      LoopAck(c, e, rs, rest);
    }
    var tail := rs[|rs| - l.e.count..];
    EmptyTail(rs, l.e.count);
    UsedItems(e.request, l.e.request, rs, l.e.count, rest, first);
    var more := FinishTwin(c, l.e, l.e, tail, rest + LeAll(first), rest + LeAll(first));
    if first == [] {
      FinishGoes(c, l.e);
    }
    LeAllLength(put);
    LeAllLength(first);
    LeAllLength(more);
  }

  lemma UsedItems(before: Ring, after: Ring, rs: seq<Request>, left: nat, rest: seq<byte>, put: seq<word>)
    requires left <= |rs| && Used(before, after, rs, left, rest, put)
    ensures after.items == EncodeAll(rs[|rs| - left..]) + (rest + LeAll(put))
  {
    hide EncodeAll, LeAll;
  }
}
