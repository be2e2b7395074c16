/** Which request bytes a DAP_Transfer uses, and when the words it appends do not fit: for every target, whatever it
    answers and whatever noise there is. Two runs that differ only in their request buffers are followed side by side,
    the second with room for everything. */
module FramingProof {
  import opened Bits
  import opened DebugPort
  import opened RingBuffer
  import opened Status
  import opened TransferSpec
  import opened TransferProof

  /** A word can be claimed behind len bytes that start at array position got: four bytes are free, and they do not
      straddle the end of the array. */
  predicate WordFits(cap: nat, got: nat, len: nat)
    requires cap > 0
  {
    len + 4 <= cap && (got + len) % cap + 4 <= cap
  }

  /** A read whose word is appended by the request itself. */
  predicate IsDirect(port: Port, request: byte) {
    IsRead(request) && !IsMatchValue(request) && !IsPosted(port, request)
  }

  function Bytes(word: bool): (n: nat) {
    if word then 4 else 0
  }

  /** The words one request appends, the one collected for its predecessor first, find their place. */
  predicate TurnFits(port: Port, cap: nat, got: nat, len: nat, request: byte, pending: bool)
    requires cap > 0
  {
    && (pending ==> WordFits(cap, got, len))
    && (IsDirect(port, request) ==> WordFits(cap, got, len + Bytes(pending)))
  }

  /** What can be checked before the command: each word, appended when its turn comes, finds its place. */
  predicate WordsFit(port: Port, cap: nat, got: nat, len: nat, rs: seq<Request>, pending: bool)
    requires cap > 0 && |EncodeAll(rs)| <= len
    decreases |rs|
  {
    if rs == [] then pending ==> WordFits(cap, got, len) else
    var n := |Encode(rs[0])|;
    && TurnFits(port, cap, got + n, len - n, rs[0].code, pending)
    && WordsFit(port, cap, got + n, len - n + Bytes(pending) + Bytes(IsDirect(port, rs[0].code)), rs[1..],
         LeavesPending(port, rs[0].code))
  }

  /** A buffer that does not come round has a place for all of them. */
  lemma {:induction false} RoomFits(port: Port, cap: nat, got: nat, len: nat, rs: seq<Request>, pending: bool)
    requires cap > 0 && |EncodeAll(rs)| <= len && got + len + 4 * NormalReads(rs) + Bytes(pending) <= cap
    ensures WordsFit(port, cap, got, len, rs, pending)
    decreases |rs|
  {
    hide Encode;
    if rs != [] {
      var n := |Encode(rs[0])|;
      RoomFits(port, cap, got + n, len - n + Bytes(pending) + Bytes(IsDirect(port, rs[0].code)), rs[1..],
        LeavesPending(port, rs[0].code));
      FitsBelow(cap, got + n, len - n);
      FitsBelow(cap, got + n, len - n + Bytes(pending));
    } else {
      FitsBelow(cap, got, len);
    }
  }

  lemma FitsBelow(cap: nat, got: nat, len: nat)
    requires cap > 0
    ensures got + len + 4 <= cap ==> WordFits(cap, got, len)
  {
    if got + len + 4 <= cap {
      assert (got + len) % cap == got + len;
    }
  }

  predicate SameBut(e1: Engine, e2: Engine) {
    e2 == e1.(request := e2.request)
  }

  /** Either run appends its word, unless the first has no place for it. */
  lemma AppendTwin(e1: Engine, e2: Engine, n: nat)
    requires SameBut(e1, e2) && e1.request.Valid() && e2.request.Valid() && n >= 4 && e2.request.Room(n)
    ensures var r1, r2 := Append(e1), Append(e2);
      && r2.Going? && r2.e == e2.(request := r2.e.request)
      && Appended(e2.request, r2.e.request, [e1.data]) && r2.e.request.Room(n - 4)
      && (r1.Failed? <==> !WordFits(e1.request.cap, e1.request.got, |e1.request.items|))
      && (r1.Failed? ==> r1.error == NoBufs)
      && (r1.Going? ==> SameBut(r1.e, r2.e) && Appended(e1.request, r1.e.request, [e1.data]))
  {
    hide Le32;
    AppendRuns(e2, n);
    assert LeAll([e1.data]) == Le32(e1.data) + LeAll([]) == Le32(e1.data);
  }

  /** r1 and r2 are the same outcome, with the words put appended, or the first found no place for one of them. */
  ghost predicate Twins(before1: Ring, before2: Ring, r1: Outcome, r2: Outcome, put: seq<word>) {
    && !r2.Failed? && Appended(before2, r2.e.request, put)
    && (r1.Failed? ==> r1.error == NoBufs && put != [])
    && (!r1.Failed? ==> r1.Going? == r2.Going? && SameBut(r1.e, r2.e) && Appended(before1, r1.e.request, put))
  }

  lemma CollectTwin(c: Config, e1: Engine, e2: Engine, n: nat) returns (put: seq<word>)
    requires SameBut(e1, e2) && e1.request.Valid() && e2.request.Valid() && e2.request.Room(n + Bytes(e1.pending))
    ensures var r1, r2 := Collect(c, e1), Collect(c, e2);
      && Twins(e1.request, e2.request, r1, r2, put)
      && (r2.Stopped? ==> put == [] && r2.e.ack != ACK_OK) && (r2.Going? ==> |put| == if e1.pending then 1 else 0)
      && (r1.Failed? <==> e1.pending && r2.Going? && !WordFits(e1.request.cap, e1.request.got, |e1.request.items|))
      && !r2.e.pending && r2.e.request.Room(n) && r2.e.count == e2.count && r2.e.done == e2.done
  {
    hide Retry, Append;
    AppendedNothing(e1.request);
    AppendedNothing(e2.request);
    put := [];
    if e1.pending {
      var w1, w2 := Wire(c, e1, RDBUFF_READ).(pending := false), Wire(c, e2, RDBUFF_READ).(pending := false);
      if w1.ack == ACK_OK {
        AppendTwin(w1, w2, n + 4);
        put := [w1.data];
      }
    }
  }

  lemma {:induction false} PollTwin(c: Config, e1: Engine, e2: Engine, request: byte, value: word, tries: nat)
    requires SameBut(e1, e2)
    ensures SameBut(Poll(c, e1, request, value, tries), Poll(c, e2, request, value, tries))
    ensures Poll(c, e1, request, value, tries).request == e1.request
    decreases tries
  {
    hide Retry, And;
    var w1, w2 := Wire(c, e1, request), Wire(c, e2, request);
    if !(w1.ack != ACK_OK || And(w1.data, w1.mask) == value || tries == 0) {
      PollTwin(c, w1, w2, request, value, tries - 1);
    }
  }

  lemma ExecuteTwin(c: Config, e1: Engine, e2: Engine, request: byte, n: nat) returns (put: seq<word>)
    requires c.port != Disabled && SameBut(e1, e2) && e1.request.Valid() && e2.request.Valid() && !e1.pending
    requires e2.request.Room(n + 4)
    ensures var r1, r2 := Execute(c, e1, request), Execute(c, e2, request);
      && Twins(e1.request, e2.request, r1, r2, put)
      && (r2.Stopped? ==> put == [] && !r2.e.pending && r2.e.ack != ACK_OK)
      && (r2.Going? ==>
        && |put| == (if IsDirect(c.port, request) then 1 else 0)
        && r2.e.pending == LeavesPending(c.port, request) && r2.e.ack == ACK_OK)
      && (r1.Failed? <==>
        IsDirect(c.port, request) && r2.Going? && !WordFits(e1.request.cap, e1.request.got, |e1.request.items|))
      && r2.e.request.Room(n + Bytes(r2.e.pending)) && r2.e.count == e2.count
      && r2.e.done == e2.done + (if r2.Going? then 1 else 0)
  {
    hide Write, MatchRead, NormalRead, LeAll;
    AppendedNothing(e1.request);
    AppendedNothing(e2.request);
    put := [];
    if !IsRead(request) {
      WriteTwin(c, e1, e2, request);
    } else if IsMatchValue(request) {
      MatchTwin(c, e1, e2, request);
    } else {
      put := NormalTwin(c, e1, e2, request, n);
    }
  }

  lemma WriteTwin(c: Config, e1: Engine, e2: Engine, request: byte)
    requires SameBut(e1, e2) && e1.request.Valid() && e2.request.Valid() && !e1.pending
    ensures var r1, r2 := Write(c, e1, request), Write(c, e2, request);
      && r1.Going? == r2.Going? && SameBut(r1.e, r2.e) && r1.e.request == e1.request && r2.e.request == e2.request
      && !r2.e.pending && r2.e.count == e2.count && r2.e.done == e2.done && (r2.Going? <==> r2.e.ack == ACK_OK)
  {
    hide Retry;
  }

  lemma MatchTwin(c: Config, e1: Engine, e2: Engine, request: byte)
    requires SameBut(e1, e2) && e1.request.Valid() && e2.request.Valid() && !e1.pending
    ensures var r1, r2 := MatchRead(c, e1, request), MatchRead(c, e2, request);
      && r1.Going? == r2.Going? && SameBut(r1.e, r2.e) && r1.e.request == e1.request && r2.e.request == e2.request
      && !r2.e.pending && r2.e.count == e2.count && r2.e.done == e2.done && (r2.Going? <==> r2.e.ack == ACK_OK)
  {
    hide Retry, Poll, And;
    var w1, w2 := Wire(c, e1, request), Wire(c, e2, request);
    PollTwin(c, e1, e2, request, e1.data, c.matchRetries);
    PollTwin(c, w1, w2, request, e1.data, c.matchRetries);
  }

  lemma NormalTwin(c: Config, e1: Engine, e2: Engine, request: byte, n: nat) returns (put: seq<word>)
    requires c.port != Disabled && SameBut(e1, e2) && e1.request.Valid() && e2.request.Valid() && !e1.pending
    requires e2.request.Room(n + 4) && IsRead(request) && !IsMatchValue(request)
    ensures var r1, r2 := NormalRead(c, e1, request), NormalRead(c, e2, request);
      && Twins(e1.request, e2.request, r1, r2, put)
      && (r2.Stopped? ==> put == [] && !r2.e.pending)
      && (r2.Going? ==>
        |put| == (if IsDirect(c.port, request) then 1 else 0) && r2.e.pending == LeavesPending(c.port, request))
      && (r2.Going? <==> r2.e.ack == ACK_OK)
      && (r1.Failed? <==>
        IsDirect(c.port, request) && r2.Going? && !WordFits(e1.request.cap, e1.request.got, |e1.request.items|))
      && r2.e.request.Room(n + Bytes(r2.e.pending)) && r2.e.count == e2.count && r2.e.done == e2.done
  {
    hide Retry, Append, WordFits, LeAll;
    AppendedNothing(e1.request);
    AppendedNothing(e2.request);
    put := [];
    var w1, w2 := Wire(c, e1, request), Wire(c, e2, request);
    if IsDirect(c.port, request) && w1.ack == ACK_OK {
      AppendTwin(w1, w2, n + 4);
      put := [w1.data];
    }
  }

  /** A request after it has been fetched. */
  lemma TurnTwin(c: Config, f1: Engine, f2: Engine, request: byte, n: nat) returns (put: seq<word>)
    requires c.port != Disabled && SameBut(f1, f2) && f1.request.Valid() && f2.request.Valid()
    requires f2.request.Room(n + 4 + Bytes(f1.pending))
    ensures var r1, r2 := Turn(c, f1, request), Turn(c, f2, request);
      var fits := TurnFits(c.port, f1.request.cap, f1.request.got, |f1.request.items|, request, f1.pending);
      && Twins(f1.request, f2.request, r1, r2, put)
      && (r1.Failed? ==> !fits) && (r1.Going? ==> fits)
      && (r2.Stopped? ==> |put| <= (if f1.pending then 1 else 0) && !r2.e.pending && r2.e.ack != ACK_OK)
      && (r2.Going? ==>
        && 4 * |put| == Bytes(f1.pending) + Bytes(IsDirect(c.port, request))
        && r2.e.pending == LeavesPending(c.port, request) && r2.e.ack == ACK_OK)
      && (f1.pending && !Collect(c, f2).Stopped? ==> put != [])
      && r2.e.request.Room(n + Bytes(r2.e.pending)) && r2.e.count == f2.count
      && r2.e.done == f2.done + (if r2.Going? then 1 else 0)
  {
    hide Collect, Execute, WordFits, LeAll;
    put := CollectTwin(c, f1, f2, n + 4);
    LeAllLength(put);
    var c1, c2 := Collect(c, f1), Collect(c, f2);
    if c2.Going? {
      var g1 := if c1.Going? then c1.e else c2.e.(request := f1.request);
      if c1.Going? {
        var more := ExecuteTwin(c, c1.e, c2.e, request, n);
        JoinPut(f1.request, c1.e.request, Turn(c, f1, request), put, more);
        JoinPut(f2.request, c2.e.request, Turn(c, f2, request), put, more);
        put := put + more;
      } else {
        var more := ExecuteTwin(c, c2.e, c2.e, request, n);
        JoinPut(f2.request, c2.e.request, Turn(c, f2, request), put, more);
        put := put + more;
      }
    }
  }

  lemma JoinPut(before: Ring, between: Ring, r: Outcome, a: seq<word>, b: seq<word>)
    requires Appended(before, between, a)
    ensures Appended(between, r.e.request, b) ==> Appended(before, r.e.request, a + b)
  {
    LeAllSplit(a, b);
    assert before.items + LeAll(a) + LeAll(b) == before.items + (LeAll(a) + LeAll(b));
  }

  /** Both runs stand before the same requests, the first at a place where they do not wrap. */
  ghost predicate Before(e1: Engine, e2: Engine, rs: seq<Request>, rest1: seq<byte>, rest2: seq<byte>) {
    && SameBut(e1, e2) && e1.count == |rs| && e1.request.Valid() && e2.request.Valid()
    && e1.request.items == EncodeAll(rs) + rest1 && e2.request.items == EncodeAll(rs) + rest2
    && e1.request.got + |EncodeAll(rs)| <= e1.request.cap
    && e2.request.Room(Need(rs, e1.pending))
  }

  /** ring after the requests in front of left have been used, with rest and the words put behind. */
  ghost predicate Used(before: Ring, after: Ring, rs: seq<Request>, left: nat, rest: seq<byte>, put: seq<word>)
    requires left <= |rs|
  {
    var tail := EncodeAll(rs[|rs| - left..]);
    && after.cap == before.cap && after.got + |tail| == before.got + |EncodeAll(rs)|
    && after.items == tail + rest + LeAll(put)
  }

  lemma IterationTwin(c: Config, e1: Engine, e2: Engine, rs: seq<Request>, rest1: seq<byte>, rest2: seq<byte>)
    returns (put: seq<word>)
    requires c.port != Disabled && Before(e1, e2, rs, rest1, rest2) && rs != []
    ensures var r1, r2 := Iteration(c, e1), Iteration(c, e2);
      var n := |Encode(rs[0])|;
      var fits := TurnFits(c.port, e1.request.cap, e1.request.got + n, |e1.request.items| - n, rs[0].code, e1.pending);
      && !r2.Failed? && r2.e.count == |rs| - 1 && r2.e.done == e2.done + (if r2.Going? then 1 else 0)
      && Used(e2.request, r2.e.request, rs, |rs| - 1, rest2, put) && r2.e.request.Room(Need(rs[1..], r2.e.pending))
      && (r1.Failed? ==> r1.error == NoBufs && put != [] && !fits)
      && (!r1.Failed? ==>
        && r1.Going? == r2.Going? && SameBut(r1.e, r2.e)
        && Used(e1.request, r1.e.request, rs, |rs| - 1, rest1, put))
      && (r1.Going? ==>
        && fits && Before(r1.e, r2.e, rs[1..], rest1 + LeAll(put), rest2 + LeAll(put)))
      && (r2.Going? ==>
        && 4 * |put| == Bytes(e1.pending) + Bytes(IsDirect(c.port, rs[0].code)) && r2.e.ack == ACK_OK
        && r2.e.pending == LeavesPending(c.port, rs[0].code))
      && (r2.Stopped? ==> |put| <= (if e1.pending then 1 else 0) && !r2.e.pending && r2.e.ack != ACK_OK)
      && (e1.pending && !Collect(c, Fetch(e2).1.e).Stopped? ==> put != [])
  {
    hide Turn, TurnFits, LeAll, Encode, EncodeAll, Fetch, Iteration, IsDirect, LeavesPending;
    var r := rs[0];
    FirstEncoded(rs, rest1);
    FirstEncoded(rs, rest2);
    var more1, more2 := EncodeAll(rs[1..]) + rest1, EncodeAll(rs[1..]) + rest2;
    FetchEncoded(e1, r, more1);
    FetchEncoded(e2, r, more2);
    var f1, f2 := Fetch(e1).1.e, Fetch(e2).1.e;
    TurnIs(c, e1);
    TurnIs(c, e2);
    put := TurnTwin(c, f1, f2, r.code, 4 * |rs[1..]|);
    LeAllLength(put);
    BehindTail(rs, rest1, put);
    BehindTail(rs, rest2, put);
  }

  lemma FirstEncoded(rs: seq<Request>, rest: seq<byte>)
    requires rs != []
    ensures EncodeAll(rs) + rest == Encode(rs[0]) + (EncodeAll(rs[1..]) + rest)
    ensures |EncodeAll(rs)| == |Encode(rs[0])| + |EncodeAll(rs[1..])|
  {
  }

  lemma BehindTail(rs: seq<Request>, rest: seq<byte>, put: seq<word>)
    requires rs != []
    ensures rs[|rs| - (|rs| - 1)..] == rs[1..]
    ensures EncodeAll(rs[1..]) + rest + LeAll(put) == EncodeAll(rs[1..]) + (rest + LeAll(put))
  {
    hide LeAll, EncodeAll;
  }

  lemma TurnIs(c: Config, e: Engine)
    requires e.count > 0 && e.request.Valid() && Fetch(e).1.Going?
    ensures Iteration(c, e) == Turn(c, Fetch(e).1.e, Fetch(e).0)
  {
  }

  lemma JoinUsed(a: Ring, b: Ring, d: Ring, rs: seq<Request>, left: nat, rest: seq<byte>, p1: seq<word>, p2: seq<word>)
    requires rs != [] && left <= |rs| - 1
    requires Used(a, b, rs, |rs| - 1, rest, p1) && Used(b, d, rs[1..], left, rest + LeAll(p1), p2)
    ensures Used(a, d, rs, left, rest, p1 + p2)
  {
    hide LeAll, EncodeAll;
    assert rs[|rs| - (|rs| - 1)..] == rs[1..];
    assert rs[1..][|rs[1..]| - left..] == rs[|rs| - left..];
    LeAllSplit(p1, p2);
    var tail := EncodeAll(rs[|rs| - left..]);
    assert tail + (rest + LeAll(p1)) + LeAll(p2) == tail + rest + (LeAll(p1) + LeAll(p2));
  }

  lemma UsedNothing(ring: Ring, rest: seq<byte>)
    requires ring.items == EncodeAll([]) + rest
    ensures Used(ring, ring, [], 0, rest, [])
  {
    assert LeAll([]) == [];
  }

  /** How two loops end; fits is the check made on the buffer of the first. */
  ghost predicate LoopTwins(c: Config, e1: Engine, e2: Engine, r1: Outcome, r2: Outcome,
    rs: seq<Request>, rest1: seq<byte>, rest2: seq<byte>, put: seq<word>, fits: bool)
    requires e1.request.Valid() && r1.e.request.Valid()
  {
    && !r2.Failed? && r2.e.count <= |rs| && Used(e2.request, r2.e.request, rs, r2.e.count, rest2, put)
    && r2.e.request.Room(Need([], r2.e.pending))
    && (r1.Failed? ==> r1.error == NoBufs && put != [] && !fits)
    && (!r1.Failed? ==>
      r1.Going? == r2.Going? && SameBut(r1.e, r2.e) && Used(e1.request, r1.e.request, rs, r2.e.count, rest1, put))
    && 4 * |put| + Bytes(r2.e.pending) <= 4 * NormalReads(rs) + Bytes(e1.pending)
    && (r1.Going? ==>
      (fits <==> (r1.e.pending ==> WordFits(r1.e.request.cap, r1.e.request.got, |r1.e.request.items|))))
    && (r2.Going? ==> r2.e.count == 0 && (rs == [] ==> r2.e == e2) && (rs != [] ==> r2.e.ack == ACK_OK))
    && (r2.Stopped? ==> r2.e.ack != ACK_OK && !r2.e.pending)
  }

  /** The first run has found no place for a word of its first request, and the second goes on alone. */
  lemma {:induction false} LoopAlone(c: Config, e1: Engine, e2: Engine, rs: seq<Request>, rest1: seq<byte>,
    rest2: seq<byte>, first: seq<word>)
    returns (put: seq<word>)
    requires c.port != Disabled && rs != [] && e1.request.Valid() && e2.request.Valid() && e1.count == e2.count == |rs|
    requires var i1, i2 := Iteration(c, e1), Iteration(c, e2);
      && i1.Failed? && i1.error == NoBufs && first != [] && i2.Going? && i2.e.count == |rs| - 1
      && Used(e2.request, i2.e.request, rs, |rs| - 1, rest2, first) && i2.e.request.Room(Need(rs[1..], i2.e.pending))
      && 4 * |first| == Bytes(e1.pending) + Bytes(IsDirect(c.port, rs[0].code)) && i2.e.ack == ACK_OK
      && i2.e.pending == LeavesPending(c.port, rs[0].code)
    ensures LoopTwins(c, e1, e2, Loop(c, e1), Loop(c, e2), rs, rest1, rest2, put, false)
    decreases |rs|, 0
  {
    hide Iteration, LeAll, WordFits, WordsFit, Encode, IsDirect, LeavesPending, EncodeAll, Used, Before, NormalReads;
    var i := Iteration(c, e2).e;
    AloneBefore(e2, i, rs, rest2, first);
    var more := LoopTwin(c, i, i, rs[1..], rest2 + LeAll(first), rest2 + LeAll(first));
    var l := Loop(c, i);
    JoinUsed(e2.request, i.request, l.e.request, rs, l.e.count, rest2, first, more);
    put := first + more;
    DirectCounts(c.port, rs);
  }

  lemma {:induction false} LoopTwin(c: Config, e1: Engine, e2: Engine, rs: seq<Request>, rest1: seq<byte>,
    rest2: seq<byte>)
    returns (put: seq<word>)
    requires c.port != Disabled && Before(e1, e2, rs, rest1, rest2)
    ensures e1.request.Valid() && e2.request.Valid() && |EncodeAll(rs)| <= |e1.request.items|
    ensures LoopTwins(c, e1, e2, Loop(c, e1), Loop(c, e2), rs, rest1, rest2, put,
      WordsFit(c.port, e1.request.cap, e1.request.got, |e1.request.items|, rs, e1.pending))
    decreases |rs|, 1
  {
    hide Iteration, LeAll, TurnFits, WordFits, WordsFit, Encode, IsDirect, LeavesPending, EncodeAll, Used, Before,
      NormalReads;
    BeforeFits(c, e1, e2, rs, rest1, rest2);
    if rs == [] {
      put := [];
      NoneEncoded(rs);
      UsedNothing(e1.request, rest1);
      UsedNothing(e2.request, rest2);
    } else {
      var first := IterationTwin(c, e1, e2, rs, rest1, rest2);
      var i1, i2 := Iteration(c, e1), Iteration(c, e2);
      FitsHere(c.port, e1.request.cap, e1.request.got, |e1.request.items|, rs, e1.pending);
      if i1.Going? {
        PlaceAfter(e1.request, i1.e.request, rs, rest1, first);
        BeforeFits(c, i1.e, i2.e, rs[1..], rest1 + LeAll(first), rest2 + LeAll(first));
        var more := LoopTwin(c, i1.e, i2.e, rs[1..], rest1 + LeAll(first), rest2 + LeAll(first));
        var l1, l2 := Loop(c, i1.e), Loop(c, i2.e);
        JoinUsed(e2.request, i2.e.request, l2.e.request, rs, l2.e.count, rest2, first, more);
        if !l1.Failed? {
          JoinUsed(e1.request, i1.e.request, l1.e.request, rs, l2.e.count, rest1, first, more);
        }
        put := first + more;
        DirectCounts(c.port, rs);
      } else if i1.Failed? && i2.Going? {
        put := LoopAlone(c, e1, e2, rs, rest1, rest2, first);
      } else {
        DirectCounts(c.port, rs);
        put := first;
      }
    }
  }

  lemma BeforeFits(c: Config, e1: Engine, e2: Engine, rs: seq<Request>, rest1: seq<byte>, rest2: seq<byte>)
    requires Before(e1, e2, rs, rest1, rest2)
    ensures SameBut(e1, e2) && e1.count == |rs| && e1.request.Valid() && e2.request.Valid()
    ensures |EncodeAll(rs)| <= |e1.request.items| && e1.request.items == EncodeAll(rs) + rest1
    ensures e2.request.Room(Need(rs, e2.pending))
    ensures rs == [] ==> e1.request.items == EncodeAll([]) + rest1 && e2.request.items == EncodeAll([]) + rest2
    ensures rs == [] ==>
      WordsFit(c.port, e1.request.cap, e1.request.got, |e1.request.items|, rs, e1.pending)
        == (e1.pending ==> WordFits(e1.request.cap, e1.request.got, |e1.request.items|))
  {
    hide WordFits;
  }

  /** The check before a request is the check of the request and the one after it. */
  lemma FitsHere(port: Port, cap: nat, got: nat, len: nat, rs: seq<Request>, pending: bool)
    requires rs != [] && cap > 0 && |EncodeAll(rs)| <= len
    ensures |rs[1..]| == |rs| - 1 && |EncodeAll(rs)| == |Encode(rs[0])| + |EncodeAll(rs[1..])|
    ensures var n := |Encode(rs[0])|;
      WordsFit(port, cap, got, len, rs, pending) == (
        && TurnFits(port, cap, got + n, len - n, rs[0].code, pending)
        && WordsFit(port, cap, got + n, len - n + Bytes(pending) + Bytes(IsDirect(port, rs[0].code)), rs[1..],
             LeavesPending(port, rs[0].code)))
  {
    hide TurnFits, Encode, IsDirect, LeavesPending;
    FirstEncoded(rs, []);
  }

  lemma PlaceAfter(before: Ring, after: Ring, rs: seq<Request>, rest: seq<byte>, put: seq<word>)
    requires rs != [] && before.items == EncodeAll(rs) + rest && Used(before, after, rs, |rs| - 1, rest, put)
    ensures after.cap == before.cap && after.got == before.got + |Encode(rs[0])|
    ensures |after.items| == |before.items| - |Encode(rs[0])| + 4 * |put|
  {
    hide LeAll, Encode, EncodeAll;
    FirstEncoded(rs, rest);
    LeAllLength(put);
    assert rs[|rs| - (|rs| - 1)..] == rs[1..];
  }

  lemma NoneEncoded(rs: seq<Request>)
    requires rs == []
    ensures EncodeAll(rs) == []
  {
  }

  lemma DirectCounts(port: Port, rs: seq<Request>)
    requires rs != []
    ensures Bytes(IsDirect(port, rs[0].code)) + Bytes(LeavesPending(port, rs[0].code)) + 4 * NormalReads(rs[1..])
      == 4 * NormalReads(rs)
  {
  }

  lemma AloneBefore(e: Engine, i: Engine, rs: seq<Request>, rest: seq<byte>, put: seq<word>)
    requires rs != [] && i.request.Valid() && i.count == |rs| - 1
    requires Used(e.request, i.request, rs, |rs| - 1, rest, put) && i.request.Room(Need(rs[1..], i.pending))
    ensures Before(i, i, rs[1..], rest + LeAll(put), rest + LeAll(put))
  {
    hide LeAll, EncodeAll;
    BehindTail(rs, rest, put);
  }

  /** ring with the requests in front of it used, and the words put behind rest. */
  function Rest(ring: Ring, used: nat, rest: seq<byte>, put: seq<word>): (r: Ring) {
    ring.(got := ring.got + used, items := rest + LeAll(put))
  }

  lemma FinishTwin(c: Config, e1: Engine, e2: Engine, tail: seq<Request>, rest1: seq<byte>, rest2: seq<byte>)
    returns (put: seq<word>)
    requires SameBut(e1, e2) && e1.request.Valid() && e2.request.Valid() && e1.count == |tail|
    requires e1.request.items == EncodeAll(tail) + rest1 && e2.request.items == EncodeAll(tail) + rest2
    requires e2.request.Room(Bytes(e1.pending)) && (e1.pending ==> tail == [])
    ensures var r1, r2 := Finish(c, e1), Finish(c, e2);
      var n := |EncodeAll(tail)|;
      && r2.Going? && r2.e.request == Rest(e2.request, n, rest2, put) && |put| <= (if e1.pending then 1 else 0)
      && (r1.Failed? ==>
        r1.error == NoBufs && put != [] && e1.pending && !WordFits(e1.request.cap, e1.request.got, |e1.request.items|))
      && (r1.Going? ==> SameBut(r1.e, r2.e) && r1.e.request == Rest(e1.request, n, rest1, put))
      && (e1.ack != ACK_OK ==> r1.e.ack == e1.ack)
      && (e1.pending && r2.e.ack == ACK_OK ==> put != [])
      && (r1.Going? && r1.e.ack == ACK_OK && e1.pending ==>
        WordFits(e1.request.cap, e1.request.got, |e1.request.items|))
  {
    hide Retry, Append, WordFits, LeAll, Drain, Encode;
    DrainEncoded(e1.request, tail, rest1);
    DrainEncoded(e2.request, tail, rest2);
    NoneEncoded([]);
    LeAllEmpty();
    assert rest1 + [] == rest1 && rest2 + [] == rest2;
    put := [];
    var d1 := e1.(request := e1.request.(got := e1.request.got + |EncodeAll(tail)|, items := rest1), count := 0);
    var d2 := e2.(request := e2.request.(got := e2.request.got + |EncodeAll(tail)|, items := rest2), count := 0);
    if e1.ack == ACK_OK && e1.pending {
      assert EncodeAll(tail) == [];
      assert [] + rest1 == rest1;
      var w1, w2 := Wire(c, d1, RDBUFF_READ), Wire(c, d2, RDBUFF_READ);
      if w1.ack == ACK_OK {
        AppendTwin(w1, w2, 4);
        put := [w1.data];
      }
    }
  }

  /** How two runs of the command end. */
  ghost predicate RunTwins(c: Config, e1: Engine, e2: Engine, r1: Outcome, r2: Outcome,
    rs: seq<Request>, rest1: seq<byte>, rest2: seq<byte>, put: seq<word>, fits: bool)
  {
    && r2.Going? && r2.e.request == Rest(e2.request, |EncodeAll(rs)|, rest2, put) && |put| <= NormalReads(rs)
    && (r1.Failed? ==> r1.error == NoBufs && put != [] && !fits)
    && (r1.Going? ==> SameBut(r1.e, r2.e) && r1.e.request == Rest(e1.request, |EncodeAll(rs)|, rest1, put))
    && (r1.Going? && r1.e.ack == ACK_OK ==> fits)
  }

  lemma RunTwin(c: Config, e1: Engine, e2: Engine, rs: seq<Request>, rest1: seq<byte>, rest2: seq<byte>)
    returns (put: seq<word>)
    requires Before(e1, e2, rs, rest1, rest2) && e1.ack == 0 && !e1.pending
    ensures |EncodeAll(rs)| <= |e1.request.items|
    ensures RunTwins(c, e1, e2, Run(c, e1), Run(c, e2), rs, rest1, rest2, put,
      WordsFit(c.port, e1.request.cap, e1.request.got, |e1.request.items|, rs, false))
  {
    hide Loop, Finish, LeAll, WordFits, WordsFit, Encode, Drain;
    LeAllEmpty();
    if c.port == Disabled {
      assert rest1 + [] == rest1 && rest2 + [] == rest2;
      RefusedDrains(c, e1, rs, rest1);
      RefusedDrains(c, e2, rs, rest2);
      put := [];
    } else {
      put := EnabledTwin(c, e1, e2, rs, rest1, rest2);
    }
  }

  lemma EnabledTwin(c: Config, e1: Engine, e2: Engine, rs: seq<Request>, rest1: seq<byte>, rest2: seq<byte>)
    returns (put: seq<word>)
    requires c.port != Disabled && Before(e1, e2, rs, rest1, rest2) && e1.ack == 0 && !e1.pending
    ensures |EncodeAll(rs)| <= |e1.request.items|
    ensures RunTwins(c, e1, e2, Run(c, e1), Run(c, e2), rs, rest1, rest2, put,
      WordsFit(c.port, e1.request.cap, e1.request.got, |e1.request.items|, rs, false))
  {
    hide Loop, Finish, LeAll, WordFits, WordsFit, Encode, EncodeAll, Before, NormalReads;
    BeforeFits(c, e1, e2, rs, rest1, rest2);
    var first := LoopTwin(c, e1, e2, rs, rest1, rest2);
    var l1, l2 := Loop(c, e1), Loop(c, e2);
    var tail := rs[|rs| - l2.e.count..];
    EmptyTail(rs, l2.e.count);
    assert EncodeAll(tail) + rest2 + LeAll(first) == EncodeAll(tail) + (rest2 + LeAll(first));
    if l1.Failed? {
      var more := FinishTwin(c, l2.e, l2.e, tail, rest2 + LeAll(first), rest2 + LeAll(first));
      put := first + more;
      RestJoin(rest2, first, more);
    } else {
      assert EncodeAll(tail) + rest1 + LeAll(first) == EncodeAll(tail) + (rest1 + LeAll(first));
      var more := FinishTwin(c, l1.e, l2.e, tail, rest1 + LeAll(first), rest2 + LeAll(first));
      put := first + more;
      RestJoin(rest1, first, more);
      RestJoin(rest2, first, more);
    }
  }

  lemma EmptyTail(rs: seq<Request>, n: nat)
    requires n <= |rs|
    ensures |rs[|rs| - n..]| == n && (n == 0 ==> rs[|rs| - n..] == [])
  {
  }

  lemma RestJoin(rest: seq<byte>, a: seq<word>, b: seq<word>)
    ensures rest + LeAll(a) + LeAll(b) == rest + LeAll(a + b)
  {
    LeAllSplit(a, b);
    assert rest + LeAll(a) + LeAll(b) == rest + (LeAll(a) + LeAll(b));
  }

  /** The same command with a request buffer that has room for every word. */
  function Roomier(e: Engine): (r: Engine) {
    e.(request := Ring(|e.request.items| + 4 * e.count + 1, 0, e.request.items))
  }

  lemma RoomierBefore(e: Engine, rs: seq<Request>, rest: seq<byte>)
    requires e.count == |rs| && !e.pending && e.request.Valid() && e.request.items == EncodeAll(rs) + rest
    requires e.request.got + |EncodeAll(rs)| <= e.request.cap
    ensures Before(e, Roomier(e), rs, rest, rest) && Before(Roomier(e), Roomier(e), rs, rest, rest)
    ensures Roomier(e).request.Room(4 * |rs|) && |EncodeAll(rs)| <= |e.request.items|
  {
    hide EncodeAll;
  }

  /** What a DAP_Transfer leaves of the request buffer does not depend on the target: on every port and whatever is
      answered, its own bytes are used and what follows them stays, with at most one word for each normal read behind
      it. It fails only for want of a place for a word. */
  lemma TransferFraming(c: Config, e: Engine, rs: seq<Request>, rest: seq<byte>) returns (put: seq<word>)
    requires e.count == |rs| && e.ack == 0 && !e.pending
    requires e.request.Valid() && e.request.items == EncodeAll(rs) + rest
    requires e.request.got + |EncodeAll(rs)| <= e.request.cap
    ensures |put| <= NormalReads(rs) && |EncodeAll(rs)| <= |e.request.items|
    ensures var r := Run(c, e);
      && (r.Failed? ==>
        && r.error == NoBufs && put != []
        && !WordsFit(c.port, e.request.cap, e.request.got, |e.request.items|, rs, false))
      && (r.Going? ==> r.e.request == Rest(e.request, |EncodeAll(rs)|, rest, put))
  {
    hide Run, WordsFit, EncodeAll;
    RoomierBefore(e, rs, rest);
    put := RunTwin(c, e, Roomier(e), rs, rest, rest);
  }

  /** DAP_Transfer over a target that posts reads, answers WAIT and FAULT at will and garbles words detectably, is
      the list of requests done one at a time: the n requests reported as completed are carried out exactly once
      and in order, the words appended are their read results in order (all of them if OK is reported, all but at
      most the last otherwise), the rest of the request buffer is untouched, and a request that was cut short has
      at most repeated its own access. It fails only for want of a place for a word. */
  lemma TransferIsSequential(c: Config, e: Engine, s: Ref, rs: seq<Request>, rest: seq<byte>)
    returns (n: nat, s1: Ref, out: seq<word>)
    requires c.port != Disabled && Detectable(c.w)
    requires Tracks(c, e.dp, s) && e.mask == s.mask && s.words == []
    requires e.count == |rs| && e.done == 0 && e.ack == 0 && !e.pending
    requires e.request.Valid() && e.request.items == EncodeAll(rs) + rest
    requires e.request.got + |EncodeAll(rs)| <= e.request.cap
    ensures |EncodeAll(rs)| <= |e.request.items|
    ensures n <= |rs| && RunUsed(c, s, rs[..n], false) == Some(s1)
    ensures var r := Run(c, e);
      if r.Failed? then
        r.error == NoBufs && !WordsFit(c.port, e.request.cap, e.request.got, |e.request.items|, rs, false)
      else Reported(c, rs, rest, out, s1, r, n)
  {
    hide Run, WordsFit, EncodeAll, RunUsed, Extends, LeAll, Before;
    RoomierBefore(e, rs, rest);
    var put := RunTwin(c, e, Roomier(e), rs, rest, rest);
    n, s1, out := SequentialInRoom(c, Roomier(e), s, rs, rest);
  }
}
