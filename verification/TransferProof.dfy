/** DAP_Transfer over a pipelined target is the list of requests carried out one at a time. */
module TransferProof {
  import opened Bits
  import opened DebugPort
  import opened RingBuffer
  import opened TransferSpec

  datatype Request = Request(code: byte, operand: word)

  function Encode(r: Request): (bs: seq<byte>)
    ensures bs != []
  {
    [r.code] + if CarriesData(r.code) then Le32(r.operand) else []
  }

  /** The whole request byte: bit 4 makes a read a value match, bit 5 a write a write of the match mask, and writes and
      value matches are followed by their operand. */
  lemma RequestEncoded(ap: bool, rnw: bool, a2: bool, a3: bool, value: bool, mask: bool, high: nat, operand: word)
    requires high < 4
    ensures var code := ToInt(ap) + 2 * ToInt(rnw) + 4 * ToInt(a2) + 8 * ToInt(a3) + 16 * ToInt(value)
        + 32 * ToInt(mask) + 64 * high;
      && AccessOf(code, operand) == Access(ap, rnw, a2, a3, if rnw then 0 else operand)
      && IsMatchValue(code) == value && IsMatchMask(code) == mask
      && Encode(Request(code, operand)) == [code] + (if !rnw || value then Le32(operand) else [])
  {
    hide Le32;
    var more := ToInt(value) + 2 * ToInt(mask) + 4 * high;
    var code := ToInt(ap) + 2 * ToInt(rnw) + 4 * ToInt(a2) + 8 * ToInt(a3) + 16 * more;
    RequestDecoded(ap, rnw, a2, a3, more, operand);
    assert code / 16 == more && code / 32 == ToInt(mask) + 2 * high;
  }

  function EncodeAll(rs: seq<Request>): (bs: seq<byte>) {
    if rs == [] then [] else Encode(rs[0]) + EncodeAll(rs[1..])
  }

  function LeAll(ws: seq<word>): (bs: seq<byte>) {
    if ws == [] then [] else Le32(ws[0]) + LeAll(ws[1..])
  }

  lemma {:induction false} LeAllSplit(a: seq<word>, b: seq<word>)
    ensures LeAll(a + b) == LeAll(a) + LeAll(b)
  {
    hide Le32;
    if a == [] {
      assert a + b == b;
    } else {
      LeAllSplit(a[1..], b);
      assert (a + b)[1..] == a[1..] + b;
    }
  }

  function NormalReads(rs: seq<Request>): (n: nat) {
    if rs == [] then 0 else
    (if IsRead(rs[0].code) && !IsMatchValue(rs[0].code) then 1 else 0) + NormalReads(rs[1..])
  }

  lemma {:induction false} LeAllLength(ws: seq<word>)
    ensures |LeAll(ws)| == 4 * |ws|
  {
    hide Le32;
    if ws != [] {
      LeAllLength(ws[1..]);
    }
  }

  // The reference: no pipelining, no acknowledges, no wires.

  /** log: register accesses so far; rdbuff: what SW-DP RDBUFF holds; words: the results of the normal reads. */
  datatype Ref = Ref(log: seq<Access>, rdbuff: word, mask: word, words: seq<word>)

  function ReadOne(c: Config, s: Ref, a: Access): (r: (Ref, word)) {
    if IsRdBuff(a) then (s, if c.port == Jtag then 0 else s.rdbuff)
    else
      var v := c.w.answer(s.log + [a]);
      (s.(log := s.log + [a], rdbuff := if c.port == Swd && a.ap then v else s.rdbuff), v)
  }

  /** Read until the value matches, at most 1 + tries times; where reads are posted, one more is then in flight. */
  function MatchOne(c: Config, s: Ref, request: byte, value: word, tries: nat): (r: Option<Ref>)
    decreases tries
  {
    var a := AccessOf(request, 0);
    var (s1, v) := ReadOne(c, s, a);
    if And(v, s.mask) == value then Some(if IsPosted(c.port, request) then ReadOne(c, s1, a).0 else s1)
    else if tries == 0 then None
    else MatchOne(c, s1, request, value, tries - 1)
  }

  /** One request, with the operand it is given; None when a value match fails. */
  function RunOne(c: Config, s: Ref, request: byte, operand: word): (r: Option<Ref>) {
    if !IsRead(request) then
      Some(if IsMatchMask(request) then s.(mask := operand) else s.(log := s.log + [AccessOf(request, operand)]))
    else if IsMatchValue(request) then MatchOne(c, s, request, operand, c.matchRetries)
    else
      var (s1, v) := ReadOne(c, s, AccessOf(request, 0));
      Some(s1.(words := s1.words + [v]))
  }

  /** A match ends with the first of its reads that matches, k of them made, and fails if none of 1 + tries does. */
  lemma {:induction false} MatchOneExact(c: Config, s: Ref, request: byte, value: word, tries: nat) returns (k: nat)
    requires !IsRdBuff(AccessOf(request, 0))
    ensures var m, a := MatchOne(c, s, request, value, tries), AccessOf(request, 0);
      && 1 <= k <= tries + 1
      && (forall j :: 1 <= j < k ==> And(c.w.answer(s.log + Repeat(a, j)), s.mask) != value)
      && (m.Some? <==> And(c.w.answer(s.log + Repeat(a, k)), s.mask) == value) && (m.None? ==> k == tries + 1)
      && (m.Some? ==>
        && m.value.log == s.log + Repeat(a, k) + (if IsPosted(c.port, request) then [a] else [])
        && m.value.mask == s.mask && m.value.words == s.words)
    decreases tries
  {
    hide And, AccessOf;
    var a := AccessOf(request, 0);
    var (s1, v) := ReadOne(c, s, a);
    k := 1;
    assert Repeat(a, 1) == [a];
    if And(v, s.mask) != value && tries > 0 {
      var more := MatchOneExact(c, s1, request, value, tries - 1);
      k := more + 1;
      forall j | 1 <= j <= more
        ensures s1.log + Repeat(a, j) == s.log + Repeat(a, j + 1)
      {
        assert [a] + Repeat(a, j) == Repeat(a, j + 1);
      }
      forall j | 1 <= j < k
        ensures And(c.w.answer(s.log + Repeat(a, j)), s.mask) != value
      {
        if j > 1 {
          assert s1.log + Repeat(a, j - 1) == s.log + Repeat(a, j);
        }
      }
    }
  }

  /** What the reference has each kind of request do, in terms of the byte the host sends. */
  lemma RequestMeans(c: Config, s: Ref, ap: bool, rnw: bool, a2: bool, a3: bool, value: bool, mask: bool, high: nat,
    operand: word)
    returns (k: nat)
    requires high < 4 && !(!ap && rnw && a2 && a3)
    ensures var code := ToInt(ap) + 2 * ToInt(rnw) + 4 * ToInt(a2) + 8 * ToInt(a3) + 16 * ToInt(value)
        + 32 * ToInt(mask) + 64 * high;
      var a := Access(ap, rnw, a2, a3, if rnw then 0 else operand);
      var r := RunOne(c, s, code, operand);
      && (!rnw && mask ==> r == Some(s.(mask := operand)))
      && (!rnw && !mask ==> r == Some(s.(log := s.log + [a])))
      && (rnw && !value ==>
        && r.Some? && r.value.log == s.log + [a] && r.value.mask == s.mask
        && r.value.words == s.words + [c.w.answer(s.log + [a])])
      && (rnw && value ==>
        && 1 <= k <= c.matchRetries + 1
        && (forall j :: 1 <= j < k ==> And(c.w.answer(s.log + Repeat(a, j)), s.mask) != operand)
        && (r.Some? <==> And(c.w.answer(s.log + Repeat(a, k)), s.mask) == operand)
        && (r.None? ==> k == c.matchRetries + 1)
        && (r.Some? ==>
          && r.value.log == s.log + Repeat(a, k) + (if c.port == Jtag || ap then [a] else [])
          && r.value.mask == s.mask && r.value.words == s.words))
  {
    hide And, MatchOne, Encode;
    var code := ToInt(ap) + 2 * ToInt(rnw) + 4 * ToInt(a2) + 8 * ToInt(a3) + 16 * ToInt(value)
      + 32 * ToInt(mask) + 64 * high;
    RequestEncoded(ap, rnw, a2, a3, value, mask, high, operand);
    RequestEncoded(ap, rnw, a2, a3, value, mask, high, 0);
    k := 1;
    if rnw && value {
      k := MatchOneExact(c, s, code, operand, c.matchRetries);
    }
  }

  /** A read whose word the code collects only when it comes to the next request. */
  predicate LeavesPending(port: Port, request: byte) {
    IsRead(request) && !IsMatchValue(request) && IsPosted(port, request)
  }

  /** The operand the code uses: a word collected for a posted read takes the place of the request's own. */
  function UsedOperand(s: Ref, r: Request, pending: bool): (v: word) {
    if pending && s.words != [] then s.words[|s.words| - 1] else r.operand
  }

  /** The requests in order, one at a time, with the operands the code uses. */
  function RunUsed(c: Config, s: Ref, rs: seq<Request>, pending: bool): (r: Option<Ref>)
    decreases |rs|
  {
    if rs == [] then Some(s) else
    var s1 := RunOne(c, s, rs[0].code, UsedOperand(s, rs[0], pending));
    if s1.None? then None else RunUsed(c, s1.value, rs[1..], LeavesPending(c.port, rs[0].code))
  }

  /** The requests in order, one at a time, each with its own operand. */
  function RunOwn(c: Config, s: Ref, rs: seq<Request>): (r: Option<Ref>)
    decreases |rs|
  {
    if rs == [] then Some(s) else
    var s1 := RunOne(c, s, rs[0].code, rs[0].operand);
    if s1.None? then None else RunOwn(c, s1.value, rs[1..])
  }

  /** Noise on SWD reads never goes unnoticed. */
  ghost predicate Detectable(w: World) {
    forall k :: NoiseOn(w.noise(k), 33) == Repeat(false, 33) || Odd(NoiseOn(w.noise(k), 33))
  }

  /** log is base with at most bound accesses a after it. */
  ghost predicate Extends(log: seq<Access>, base: seq<Access>, a: Access, bound: nat) {
    && |base| <= |log| <= |base| + bound
    && log[..|base|] == base
    && forall i :: |base| <= i < |log| ==> log[i] == a
  }

  lemma ExtendsTrans(x: seq<Access>, y: seq<Access>, z: seq<Access>, a: Access, m: nat, n: nat)
    requires Extends(y, x, a, m) && Extends(z, y, a, n)
    ensures Extends(z, x, a, m + n)
  {
    assert z[..|x|] == z[..|y|][..|x|];
    forall i | |x| <= i < |z|
      ensures z[i] == a
    {
      if i < |y| {
        assert z[..|y|][i] == y[i];
      }
    }
  }

  /** The port at the other end of the wire stands where the reference does. */
  ghost predicate Tracks(c: Config, dp: Dp, s: Ref) {
    dp.log == s.log && (c.port == Swd ==> dp.readBuf == s.rdbuff)
  }

  /** One transaction with an OK in the end: the access is made once, and its value is where the port puts it. */
  lemma WireOk(c: Config, e: Engine, request: byte, s: Ref)
    requires c.port != Disabled && Detectable(c.w) && Tracks(c, e.dp, s)
    ensures var e1 := Wire(c, e, request);
      var a := AccessOf(request, e.data);
      var (s1, v) := ReadOne(c, s, a);
      && e1 == e.(ack := e1.ack, data := e1.data, dp := e1.dp)
      && (e1.ack == ACK_OK ==>
        && (IsRead(request) ==> Tracks(c, e1.dp, s1))
        && (!IsRead(request) ==> Tracks(c, e1.dp, s.(log := s.log + [a])))
        && (IsRead(request) && IsPosted(c.port, request) ==> e1.dp.readBuf == v && e1.data == e.dp.readBuf)
        && (IsRead(request) && !IsPosted(c.port, request) ==> e1.data == v))
      && Extends(e1.dp.log, e.dp.log, a, if IsRdBuff(a) then 0 else 1)
  {
    hide Odd, And;
    RetryExactlyOnce(c.w, c.port, e.dp, request, e.data, c.waitRetries);
    var made := Retry(c.w, c.port, e.dp, request, e.data, c.waitRetries).dp.attempts - e.dp.attempts;
    var dp := e.dp.(attempts := e.dp.attempts + made - 1);
    TransactOk(c, dp, request, e.data, s);
  }

  lemma TransactOk(c: Config, dp: Dp, request: byte, data: word, s: Ref)
    requires c.port != Disabled && Detectable(c.w) && Tracks(c, dp, s)
    ensures var r := Transact(c.w, c.port, dp, request, data);
      var a := AccessOf(request, data);
      var (s1, v) := ReadOne(c, s, a);
      && (r.ack == ACK_OK ==>
        && (IsRead(request) ==> Tracks(c, r.dp, s1))
        && (!IsRead(request) ==> Tracks(c, r.dp, s.(log := s.log + [a])))
        && (IsRead(request) && IsPosted(c.port, request) ==> r.dp.readBuf == v && r.data == dp.readBuf)
        && (IsRead(request) && !IsPosted(c.port, request) ==> r.data == v))
      && Extends(r.dp.log, dp.log, a, if IsRdBuff(a) then 0 else 1)
  {
    hide Odd, And;
    if c.port == Swd && IsRead(request) && c.w.ack(dp.attempts) == ACK_OK {
      ReadNoise(c.w, dp, request, data);
    }
  }

  /** Between requests: the port and the match mask stand where the reference does, and the words put out so far
      are the reference's, save for one that may still be in flight. */
  ghost predicate Agrees(c: Config, e: Engine, s: Ref, out: seq<word>) {
    && Tracks(c, e.dp, s)
    && e.mask == s.mask
    && s.words == out + if e.pending then [e.dp.readBuf] else []
  }

  /** bytes with the words ws appended. */
  predicate Appended(before: Ring, after: Ring, ws: seq<word>) {
    after == before.(items := before.items + LeAll(ws))
  }

  lemma AppendRuns(e: Engine, n: nat)
    requires e.request.Valid() && n >= 4 && e.request.Room(n)
    ensures var r := Append(e);
      && r.Going? && r.e == e.(request := r.e.request)
      && Appended(e.request, r.e.request, [e.data]) && r.e.request.Room(n - 4)
  {
    PutInRoom(e.request, Le32(e.data), n);
    assert LeAll([e.data]) == Le32(e.data) + LeAll([]) == Le32(e.data);
  }

  lemma AppendedNothing(r: Ring)
    ensures Appended(r, r, [])
  {
    assert r.items + [] == r.items;
  }

  /** Collecting a posted read puts out its word and loses nothing else; when it is refused, that word is the only
      one missing. Either way no register is accessed. */
  lemma CollectRuns(c: Config, e: Engine, s: Ref, out: seq<word>, n: nat)
    requires c.port != Disabled && Detectable(c.w) && Agrees(c, e, s, out)
    requires e.request.Valid() && e.request.Room(n + if e.pending then 4 else 0)
    ensures var r := Collect(c, e);
      && r.e == e.(ack := r.e.ack, data := r.e.data, dp := r.e.dp, pending := false, request := r.e.request)
      && r.e.dp.log == s.log
      && (r.Going? ==>
        && Agrees(c, r.e, s, s.words)
        && Appended(e.request, r.e.request, s.words[|out|..]) && r.e.request.Room(n)
        && r.e.data == if e.pending then s.words[|s.words| - 1] else e.data)
      && (r.Stopped? ==>
        && r.e.ack != ACK_OK && r.e.request == e.request
        && s.words != [] && out == s.words[..|s.words| - 1])
      && !r.Failed?
  {
    hide And, Append, Retry, Odd;
    AppendedNothing(e.request);
    if e.pending {
      WireOk(c, e, RDBUFF_READ, s);
      var e1 := Wire(c, e, RDBUFF_READ).(pending := false);
      AppendRuns(e1, n + 4);
      assert s.words[|out|..] == [e.dp.readBuf];
    } else {
      assert out == s.words && s.words[|out|..] == [];
    }
  }

  lemma {:induction false} MatchOneKeeps(c: Config, s: Ref, request: byte, value: word, tries: nat)
    ensures var r := MatchOne(c, s, request, value, tries);
      r.Some? ==> r.value.mask == s.mask && r.value.words == s.words
    decreases tries
  {
    var (s1, v) := ReadOne(c, s, AccessOf(request, 0));
    if And(v, s.mask) != value && tries > 0 {
      MatchOneKeeps(c, s1, request, value, tries - 1);
    }
  }

  /** Polling a port that posts reads: each transaction returns the value of the read before it. */
  lemma {:induction false} PollPosted(c: Config, e: Engine, s: Ref, request: byte, value: word, tries: nat)
    requires c.port != Disabled && Detectable(c.w) && e.mask == s.mask
    requires IsRead(request) && IsPosted(c.port, request)
    requires var (s1, v) := ReadOne(c, s, AccessOf(request, 0)); Tracks(c, e.dp, s1) && e.dp.readBuf == v
    ensures var p := Poll(c, e, request, value, tries);
      && (p.ack == ACK_OK && And(p.data, e.mask) == value ==>
        var r := MatchOne(c, s, request, value, tries); r.Some? && Tracks(c, p.dp, r.value))
      && Extends(p.dp.log, e.dp.log, AccessOf(request, 0), tries + 1)
    decreases tries
  {
    hide And, Retry, Odd, AccessOf;
    var a := AccessOf(request, 0);
    var (s1, v) := ReadOne(c, s, a);
    SameRead(request, e.data);
    WireOk(c, e, request, s1);
    var e1 := Wire(c, e, request);
    if !(e1.ack != ACK_OK || And(e1.data, e1.mask) == value || tries == 0) {
      PollPosted(c, e1, s1, request, value, tries - 1);
      ExtendsTrans(e.dp.log, e1.dp.log, Poll(c, e1, request, value, tries - 1).dp.log, a, 1, tries);
    }
  }

  /** Polling a DP register over SWD: each transaction returns its own value. */
  lemma {:induction false} PollDirect(c: Config, e: Engine, s: Ref, request: byte, value: word, tries: nat)
    requires c.port != Disabled && Detectable(c.w) && e.mask == s.mask
    requires IsRead(request) && !IsPosted(c.port, request) && Tracks(c, e.dp, s)
    ensures var p := Poll(c, e, request, value, tries);
      && (p.ack == ACK_OK && And(p.data, e.mask) == value ==>
        var r := MatchOne(c, s, request, value, tries); r.Some? && Tracks(c, p.dp, r.value))
      && Extends(p.dp.log, e.dp.log, AccessOf(request, 0), tries + 1)
    decreases tries
  {
    hide And, Retry, Odd, AccessOf;
    var a := AccessOf(request, 0);
    var (s1, v) := ReadOne(c, s, a);
    SameRead(request, e.data);
    WireOk(c, e, request, s);
    var e1 := Wire(c, e, request);
    if !(e1.ack != ACK_OK || And(e1.data, e1.mask) == value || tries == 0) {
      PollDirect(c, e1, s1, request, value, tries - 1);
      ExtendsTrans(e.dp.log, e1.dp.log, Poll(c, e1, request, value, tries - 1).dp.log, a, 1, tries);
    }
  }

  lemma SameRead(request: byte, data: word)
    ensures IsRead(request) ==> AccessOf(request, data) == AccessOf(request, 0)
  {
  }

  /** How a request may end, seen from the reference. put: the words put out by it; steps: what it adds to the
      count of completed requests. */
  ghost predicate Ended(c: Config, e: Engine, s: Ref, request: byte, r: Outcome, put: seq<word>,
    steps: nat) {
    && !r.Failed?
    && r.e == e.(dp := r.e.dp, data := r.e.data, mask := r.e.mask, ack := r.e.ack, pending := r.e.pending,
      ackPending := r.e.ackPending, done := r.e.done, request := r.e.request)
    && Appended(e.request, r.e.request, put)
    && r.e.done == e.done + (if r.Going? then steps else 0)
    && (r.Going? ==>
      var s1 := RunOne(c, s, request, e.data);
      && s1.Some? && Agrees(c, r.e, s1.value, s.words + put)
      && r.e.ack == ACK_OK && r.e.pending == LeavesPending(c.port, request))
    && (r.Stopped? ==>
      && put == [] && r.e.ack != ACK_OK && !r.e.pending && r.e.mask == e.mask
      && Extends(r.e.dp.log, s.log, AccessOf(request, e.data), c.matchRetries + 2))
  }

  lemma MatchReadRuns(c: Config, e: Engine, s: Ref, request: byte)
    requires c.port != Disabled && Detectable(c.w) && Agrees(c, e, s, s.words) && !e.pending
    requires e.request.Valid() && IsRead(request) && IsMatchValue(request)
    ensures Ended(c, e, s, request, MatchRead(c, e, request), [], 0)
  {
    hide And, Retry, Odd, AccessOf, Poll, MatchOne, ReadOne;
    var value := e.data;
    AppendedNothing(e.request);
    SameRead(request, value);
    MatchOneKeeps(c, s, request, value, c.matchRetries);
    var a := AccessOf(request, 0);
    if IsPosted(c.port, request) {
      WireOk(c, e, request, s);
      var e1 := Wire(c, e, request);
      if e1.ack == ACK_OK {
        PollPosted(c, e1, s, request, value, c.matchRetries);
        ExtendsTrans(s.log, e1.dp.log, Poll(c, e1, request, value, c.matchRetries).dp.log, a, 1, c.matchRetries + 1);
      }
    } else {
      PollDirect(c, e, s, request, value, c.matchRetries);
    }
  }

  lemma NormalReadRuns(c: Config, e: Engine, s: Ref, request: byte, n: nat) returns (put: seq<word>)
    requires c.port != Disabled && Detectable(c.w) && Agrees(c, e, s, s.words) && !e.pending
    requires e.request.Valid() && e.request.Room(n + 4) && IsRead(request) && !IsMatchValue(request)
    ensures Ended(c, e, s, request, NormalRead(c, e, request), put, 0)
    ensures NormalRead(c, e, request).e.request.Room(n + if LeavesPending(c.port, request) then 4 else 0)
  {
    hide And, Retry, Odd, AccessOf, Append;
    AppendedNothing(e.request);
    SameRead(request, e.data);
    WireOk(c, e, request, s);
    put := [];
    var e1 := Wire(c, e, request);
    if e1.ack == ACK_OK && c.port == Swd && !IsAp(request) {
      put := [e1.data];
      AppendRuns(e1, n + 4);
    }
  }

  lemma WriteRuns(c: Config, e: Engine, s: Ref, request: byte)
    requires c.port != Disabled && Detectable(c.w) && Agrees(c, e, s, s.words) && !e.pending
    requires e.request.Valid() && !IsRead(request)
    ensures Ended(c, e, s, request, Write(c, e, request), [], 0)
  {
    hide And, Retry, Odd;
    AppendedNothing(e.request);
    if !IsMatchMask(request) {
      WireOk(c, e, request, s);
    }
  }

  lemma ExecuteRuns(c: Config, e: Engine, s: Ref, request: byte, n: nat) returns (put: seq<word>)
    requires c.port != Disabled && Detectable(c.w) && Agrees(c, e, s, s.words) && !e.pending
    requires e.request.Valid() && e.request.Room(n + 4)
    ensures Ended(c, e, s, request, Execute(c, e, request), put, 1)
    ensures Execute(c, e, request).e.request.Room(n + if LeavesPending(c.port, request) then 4 else 0)
  {
    hide And, Retry, Odd, AccessOf, Append, ReadOne, MatchOne, Poll, NormalRead, MatchRead, Write;
    put := [];
    if !IsRead(request) {
      WriteRuns(c, e, s, request);
    } else if IsMatchValue(request) {
      MatchReadRuns(c, e, s, request);
    } else {
      put := NormalReadRuns(c, e, s, request, n);
    }
  }

  /** Whatever the target answers, the request taken next is the one the host encoded next. */
  lemma FetchEncoded(e: Engine, r: Request, rest: seq<byte>)
    requires e.count > 0 && e.request.Valid() && e.request.items == Encode(r) + rest
    requires e.request.got + |Encode(r)| <= e.request.cap
    ensures Fetch(e) == (r.code, Going(e.(
      count := e.count - 1,
      data := if CarriesData(r.code) then r.operand else e.data,
      request := e.request.(got := e.request.got + |Encode(r)|, items := rest))))
  {
    hide FromLe32, Le32, Ring.GetClaimed;
    var tail := if CarriesData(r.code) then Le32(r.operand) else [];
    assert Encode(r) + rest == [r.code] + (tail + rest);
    GetFront(e.request, [r.code], tail + rest);
    var ring := e.request.(got := e.request.got + 1, items := tail + rest);
    if CarriesData(r.code) {
      GetStraight(ring, tail, rest);
      Le32RoundTrip(r.operand);
    } else {
      assert tail + rest == rest;
    }
  }

  /** Room for everything the rest of the command can append. */
  function Need(rs: seq<Request>, pending: bool): (n: nat) {
    4 * |rs| + if pending then 4 else 0
  }

  /** Whether a posted read is waiting to be collected when request n is taken. */
  predicate PendingAt(c: Config, rs: seq<Request>, pending: bool, n: nat)
    requires n <= |rs|
  {
    if n == 0 then pending else LeavesPending(c.port, rs[n - 1].code)
  }

  /** r is what the command looks like after exactly n of the requests rs were completed, which took the reference
      to s1, with the words out put out in all: either no request is left, or the next one was stopped. A stopped
      request has at most repeated its own access, and at most one completed read is without its word. */
  ghost predicate Completed(c: Config, rs: seq<Request>, pending: bool, out: seq<word>, s1: Ref, r: Outcome, n: nat) {
    && n <= |rs|
    && r.e.mask == s1.mask
    && (r.Going? ==> n == |rs| && Agrees(c, r.e, s1, out) && r.e.pending == PendingAt(c, rs, pending, n))
    && (r.Going? && n > 0 ==> r.e.ack == ACK_OK)
    && (r.Stopped? ==>
      && n < |rs| && r.e.ack != ACK_OK && !r.e.pending
      && (out == s1.words || (s1.words != [] && out == s1.words[..|s1.words| - 1]))
      && Extends(r.e.dp.log, s1.log,
           AccessOf(rs[n].code, UsedOperand(s1, rs[n], PendingAt(c, rs, pending, n))), c.matchRetries + 2))
  }

  lemma SameOperand(c: Config, s: Ref, request: byte, v: word, u: word)
    requires CarriesData(request) ==> v == u
    ensures RunOne(c, s, request, v) == RunOne(c, s, request, u)
    ensures AccessOf(request, v) == AccessOf(request, u)
  {
    SameRead(request, v);
    SameRead(request, u);
  }

  /** A turn after its request has been fetched. */
  function Turn(c: Config, f: Engine, request: byte): (r: Outcome)
    requires f.request.Valid()
    ensures r.e.request.Valid()
  {
    var collected := Collect(c, f);
    if !collected.Going? then collected else Execute(c, collected.e, request)
  }

  lemma TurnRuns(c: Config, f: Engine, s: Ref, out: seq<word>, r0: Request, n: nat) returns (put: seq<word>)
    requires c.port != Disabled && Detectable(c.w) && Agrees(c, f, s, out)
    requires CarriesData(r0.code) ==> f.data == r0.operand
    requires f.request.Valid() && f.request.Room(n + 4 + if f.pending then 4 else 0)
    ensures var r := Turn(c, f, r0.code);
      var used := UsedOperand(s, r0, f.pending);
      && !r.Failed? && r.e.count == f.count && r.e.done == f.done + (if r.Going? then 1 else 0)
      && Appended(f.request, r.e.request, put) && r.e.request.Room(0)
      && (r.Going? ==>
        var s1 := RunOne(c, s, r0.code, used);
        && s1.Some? && Agrees(c, r.e, s1.value, out + put)
        && r.e.ack == ACK_OK && r.e.pending == LeavesPending(c.port, r0.code)
        && r.e.request.Room(n + if r.e.pending then 4 else 0))
      && (r.Stopped? ==>
        && r.e.ack != ACK_OK && !r.e.pending && r.e.mask == s.mask
        && (out + put == s.words || (s.words != [] && out + put == s.words[..|s.words| - 1]))
        && Extends(r.e.dp.log, s.log, AccessOf(r0.code, used), c.matchRetries + 2))
  {
    hide And, Retry, Odd, AccessOf, Append, ReadOne, MatchOne, RunOne, Collect, Execute, LeAll;
    CollectRuns(c, f, s, out, n + 4);
    var collected := Collect(c, f);
    var first := s.words[|out|..];
    if collected.Going? {
      SameOperand(c, s, r0.code, collected.e.data, UsedOperand(s, r0, f.pending));
      var second := ExecuteRuns(c, collected.e, s, r0.code, n);
      put := first + second;
      assert out + put == s.words + second;
      LeAllSplit(first, second);
      assert f.request.items + LeAll(first) + LeAll(second) == f.request.items + LeAll(put);
    } else {
      put := [];
      assert out + put == out;
      AppendedNothing(f.request);
    }
  }

  /** One turn of the command loop is one request of the reference. */
  lemma IterationRuns(c: Config, e: Engine, s: Ref, out: seq<word>, rs: seq<Request>, rest: seq<byte>)
    returns (put: seq<word>)
    requires c.port != Disabled && Detectable(c.w) && Agrees(c, e, s, out) && rs != [] && e.count == |rs|
    requires e.request.Valid() && e.request.items == EncodeAll(rs) + rest && e.request.Room(Need(rs, e.pending))
    ensures var r := Iteration(c, e);
      && !r.Failed? && r.e.count == |rs| - 1
      && r.e.done == e.done + (if r.Going? then 1 else 0)
      && r.e.request.items == EncodeAll(rs[1..]) + rest + LeAll(put) && r.e.request.Room(0)
      && (r.Going? ==>
        var s1 := RunOne(c, s, rs[0].code, UsedOperand(s, rs[0], e.pending));
        && s1.Some? && Agrees(c, r.e, s1.value, out + put)
        && r.e.ack == ACK_OK && r.e.pending == LeavesPending(c.port, rs[0].code)
        && r.e.request.Room(Need(rs[1..], r.e.pending)))
      && (r.Stopped? ==> Completed(c, rs, e.pending, out + put, s, r, 0))
  {
    hide AccessOf, RunOne, Collect, Execute, Fetch, LeAll, Le32, Extends, Tracks, UsedOperand, Encode, CarriesData,
      Detectable, LeavesPending;
    var r0 := rs[0];
    assert EncodeAll(rs) + rest == Encode(r0) + (EncodeAll(rs[1..]) + rest);
    FetchEncoded(e, r0, EncodeAll(rs[1..]) + rest);
    put := TurnRuns(c, Fetch(e).1.e, s, out, r0, 4 * |rs[1..]|);
  }

  /** How a loop has run: the first n requests, as the reference carries them out, with their words put behind rest. */
  ghost predicate LoopRan(c: Config, e: Engine, s: Ref, out: seq<word>, rs: seq<Request>, rest: seq<byte>,
    n: nat, s1: Ref, put: seq<word>)
    requires e.request.Valid()
  {
    var r := Loop(c, e);
    && !r.Failed? && n <= |rs|
    && RunUsed(c, s, rs[..n], e.pending) == Some(s1)
    && Completed(c, rs, e.pending, out + put, s1, r, n)
    && (rs == [] ==> r.e == e)
    && r.e.done == e.done + n
    && r.e.count == (if r.Going? then 0 else |rs| - n - 1)
    && r.e.request.items == EncodeAll(rs[|rs| - r.e.count..]) + rest + LeAll(put) && r.e.request.Room(0)
    && (r.Going? ==> r.e.request.Room(Need([], r.e.pending)))
  }

  /** The whole loop: the completed requests are the reference's, whatever made the loop end. */
  lemma {:induction false} LoopRuns(c: Config, e: Engine, s: Ref, out: seq<word>, rs: seq<Request>, rest: seq<byte>)
    returns (n: nat, s1: Ref, put: seq<word>)
    requires c.port != Disabled && Detectable(c.w) && Agrees(c, e, s, out) && e.count == |rs|
    requires e.request.Valid() && e.request.items == EncodeAll(rs) + rest && e.request.Room(Need(rs, e.pending))
    ensures LoopRan(c, e, s, out, rs, rest, n, s1, put)
    decreases |rs|
  {
    hide And, Retry, Odd, AccessOf, Append, ReadOne, MatchOne, RunOne, Iteration, LeAll, Le32, Agrees, Tracks, Extends,
      UsedOperand, Completed;
    if rs == [] {
      n, s1, put := 0, s, [];
      assert LeAll([]) == [] && out + put == out by { LeAllEmpty(); }
      CompletedNone(c, e, s, out);
    } else {
      var first := IterationRuns(c, e, s, out, rs, rest);
      var r := Iteration(c, e);
      if r.Going? {
        hide LoopRan;
        var s0 := RunOne(c, s, rs[0].code, UsedOperand(s, rs[0], e.pending)).value;
        var m, more;
        m, s1, more := LoopRuns(c, r.e, s0, out + first, rs[1..], rest + LeAll(first));
        n, put := m + 1, first + more;
        LoopOn(c, e, s, s0, out, rs, rest, first, m, s1, more);
      } else {
        n, s1, put := 0, s, first;
        assert rs[|rs| - r.e.count..] == rs[1..];
      }
    }
  }

  /** A first turn, and the loop from there. */
  lemma {:induction false} LoopOn(c: Config, e: Engine, s: Ref, s0: Ref, out: seq<word>, rs: seq<Request>,
    rest: seq<byte>, first: seq<word>, m: nat, s1: Ref, more: seq<word>)
    requires e.request.Valid() && rs != [] && e.count == |rs| && Iteration(c, e).Going?
    requires Iteration(c, e).e.done == e.done + 1 && Iteration(c, e).e.pending == LeavesPending(c.port, rs[0].code)
    requires RunOne(c, s, rs[0].code, UsedOperand(s, rs[0], e.pending)) == Some(s0) && Iteration(c, e).e.ack == ACK_OK
    requires LoopRan(c, Iteration(c, e).e, s0, out + first, rs[1..], rest + LeAll(first), m, s1, more)
    ensures LoopRan(c, e, s, out, rs, rest, m + 1, s1, first + more)
  {
    hide RunOne, Iteration, LeAll, UsedOperand, Completed, EncodeAll, LeavesPending;
    var r := Iteration(c, e);
    var last := Loop(c, r.e);
    CompletedLift(c, rs, e.pending, out + first + more, s1, last, m);
    LoopJoin(rs, rest, out, first, more, m, last.e.count);
  }

  lemma LeAllEmpty()
    ensures LeAll([]) == []
  {
  }

  lemma CompletedNone(c: Config, e: Engine, s: Ref, out: seq<word>)
    requires Agrees(c, e, s, out)
    ensures Completed(c, [], e.pending, out, s, Going(e), 0)
  {
  }

  lemma LoopJoin(rs: seq<Request>, rest: seq<byte>, out: seq<word>, first: seq<word>, more: seq<word>, m: nat,
    left: nat)
    requires rs != [] && m < |rs| && left < |rs|
    ensures out + (first + more) == out + first + more
    ensures rs[..m + 1] != [] && rs[..m + 1][0] == rs[0] && rs[..m + 1][1..] == rs[1..][..m]
    ensures EncodeAll(rs[1..][|rs[1..]| - left..]) + (rest + LeAll(first)) + LeAll(more)
      == EncodeAll(rs[|rs| - left..]) + rest + LeAll(first + more)
  {
    hide LeAll, EncodeAll;
    assert rs[1..][|rs[1..]| - left..] == rs[|rs| - left..];
    LeAllSplit(first, more);
  }

  lemma CompletedLift(c: Config, rs: seq<Request>, pending: bool, out: seq<word>, s1: Ref, r: Outcome, m: nat)
    requires rs != [] && Completed(c, rs[1..], LeavesPending(c.port, rs[0].code), out, s1, r, m)
    requires rs[1..] == [] ==> r.e.ack == ACK_OK
    ensures Completed(c, rs, pending, out, s1, r, m + 1)
  {
    hide Agrees, Extends, AccessOf, UsedOperand;
  }

  /** Cancelled requests are taken off the buffer exactly as the loop would have taken them. */
  lemma {:induction false} DrainEncoded(ring: Ring, rs: seq<Request>, rest: seq<byte>)
    requires ring.Valid() && ring.items == EncodeAll(rs) + rest
    ensures Drain(ring, |rs|) == Some(ring.(got := ring.got + |EncodeAll(rs)|, items := rest))
    decreases |rs|
  {
    hide Le32;
    if rs == [] {
      assert ring.items == rest;
    } else {
      var tail := if CarriesData(rs[0].code) then Le32(rs[0].operand) else [];
      var more := EncodeAll(rs[1..]) + rest;
      assert ring.items == [rs[0].code] + (tail + more);
      GetFront(ring, [rs[0].code], tail + more);
      var ring1 := ring.(got := ring.got + 1, items := tail + more);
      if CarriesData(rs[0].code) {
        GetFront(ring1, tail, more);
        DrainEncoded(ring1.(got := ring1.got + 4, items := more), rs[1..], rest);
      } else {
        assert tail + more == more;
        DrainEncoded(ring1, rs[1..], rest);
      }
    }
  }

  /** The command as a whole ended with n requests completed, r.e.ack reported, and out appended. */
  ghost predicate Reported(c: Config, rs: seq<Request>, rest: seq<byte>, out: seq<word>, s1: Ref, r: Outcome, n: nat) {
    && r.Going? && r.e.done == n <= |rs|
    && r.e.request.items == rest + LeAll(out)
    && r.e.mask == s1.mask
    && (r.e.ack == ACK_OK ==> n == |rs| && out == s1.words)
    && (n == |rs| ==> r.e.dp.log == s1.log)
    && (n < |rs| ==> Extends(r.e.dp.log, s1.log,
         AccessOf(rs[n].code, UsedOperand(s1, rs[n], PendingAt(c, rs, false, n))), c.matchRetries + 2))
    && (out == s1.words || (s1.words != [] && out == s1.words[..|s1.words| - 1]))
  }

  lemma FinishStopped(c: Config, r: Outcome, rs: seq<Request>, rest: seq<byte>, out: seq<word>, s1: Ref, n: nat)
    requires r.Stopped? && Completed(c, rs, false, out, s1, r, n) && r.e.request.Valid()
    requires r.e.done == n && r.e.count == |rs| - n - 1 && r.e.request.Room(0)
    requires r.e.request.items == EncodeAll(rs[n + 1..]) + rest + LeAll(out)
    ensures Reported(c, rs, rest, out, s1, Finish(c, r.e), n)
  {
    hide Extends, AccessOf, UsedOperand, Drain, LeAll;
    assert r.e.request.items == EncodeAll(rs[n + 1..]) + (rest + LeAll(out));
    DrainEncoded(r.e.request, rs[n + 1..], rest + LeAll(out));
  }

  lemma FinishGoing(c: Config, e: Engine, rs: seq<Request>, rest: seq<byte>, out: seq<word>, s1: Ref)
    returns (all: seq<word>)
    requires c.port != Disabled && Detectable(c.w)
    requires Agrees(c, e, s1, out) && e.request.Valid() && e.request.Room(Need([], e.pending))
    requires e.done == |rs| && e.count == 0 && (rs == [] ==> e.ack == 0 && !e.pending)
    requires rs != [] ==> e.ack == ACK_OK
    requires e.request.items == rest + LeAll(out)
    ensures Reported(c, rs, rest, all, s1, Finish(c, e), |rs|)
  {
    hide UsedOperand, LeAll, Append, Retry, And, Le32;
    all := out;
    WireOk(c, e, RDBUFF_READ, s1);
    var e2 := Wire(c, e, RDBUFF_READ);
    assert Drain(e.request, 0) == Some(e.request);
    assert e.pending ==> s1.words[..|s1.words| - 1] == out;
    if e.ack == ACK_OK && e.pending && e2.ack == ACK_OK {
      all := out + [e.dp.readBuf];
      AppendRuns(e2, 4);
      LeAllSplit(out, [e.dp.readBuf]);
    }
  }

  /** The command is the list of requests done one at a time, if the request buffer has room for every word. */
  lemma SequentialInRoom(c: Config, e: Engine, s: Ref, rs: seq<Request>, rest: seq<byte>)
    returns (n: nat, s1: Ref, out: seq<word>)
    requires c.port != Disabled && Detectable(c.w)
    requires Tracks(c, e.dp, s) && e.mask == s.mask && s.words == []
    requires e.count == |rs| && e.done == 0 && e.ack == 0 && !e.pending
    requires e.request.Valid() && e.request.items == EncodeAll(rs) + rest && e.request.Room(4 * |rs|)
    ensures n <= |rs| && RunUsed(c, s, rs[..n], false) == Some(s1)
    ensures Reported(c, rs, rest, out, s1, Run(c, e), n)
  {
    hide Extends, Tracks, Finish, LeAll, Loop, EncodeAll, RunUsed;
    n, s1, out := LoopRuns(c, e, s, [], rs, rest);
    assert [] + out == out;
    var r := Loop(c, e);
    if r.Going? {
      assert EncodeAll(rs[|rs|..]) == [] by { EncodeNone(rs[|rs|..]); }
      assert [] + rest + LeAll(out) == rest + LeAll(out);
      out := FinishGoing(c, r.e, rs, rest, out, s1);
    } else {
      assert rs[|rs| - r.e.count..] == rs[n + 1..];
      FinishStopped(c, r, rs, rest, out, s1, n);
    }
  }

  lemma EncodeNone(rs: seq<Request>)
    requires rs == []
    ensures EncodeAll(rs) == []
  {
  }

  /** A command that cannot be carried out consumes the same request bytes. */
  lemma RefusedDrains(c: Config, e: Engine, rs: seq<Request>, rest: seq<byte>)
    requires e.count == |rs| && e.ack == 0
    requires e.request.Valid() && e.request.items == EncodeAll(rs) + rest
    ensures Finish(c, e) == Going(e.(
      count := 0, request := e.request.(got := e.request.got + |EncodeAll(rs)|, items := rest)))
  {
    DrainEncoded(e.request, rs, rest);
  }
}
