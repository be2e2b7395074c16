/** Which request bytes a DAP_TransferBlock uses and how much it returns, for every target. Two runs that differ only in
    their buffers are followed side by side. */
module BlockFraming {
  import opened Bits
  import opened DebugPort
  import opened RingBuffer
  import opened Status
  import opened TransferSpec
  import opened TransferProof
  import opened BlockSpec

  predicate SameBut(b1: Block, b2: Block) {
    b2 == b1.(request := b2.request, response := b2.response)
  }

  // Writing.

  /** Words have gone from the front of the buffer, and those of left are still there. */
  predicate Taken(before: Ring, after: Ring, ws: seq<word>, left: nat, rest: seq<byte>) {
    left <= |ws| && after == before.(got := before.got + 4 * (|ws| - left), items := LeAll(ws[|ws| - left..]) + rest)
  }

  lemma {:induction false} WriteLoopTwin(c: Config, b1: Block, b2: Block, ws: seq<word>, rest1: seq<byte>,
    rest2: seq<byte>)
    requires SameBut(b1, b2) && b1.Valid() && b2.Valid() && b1.count == |ws|
    requires b1.request.items == LeAll(ws) + rest1 && b2.request.items == LeAll(ws) + rest2
    ensures var r1, r2 := WriteLoop(c, b1), WriteLoop(c, b2);
      && !r1.Broken? && !r2.Broken? && r1.Through? == r2.Through? && SameBut(r1.b, r2.b)
      && r1.b.response == b1.response && r2.b.response == b2.response && r1.b.code == b1.code
      && Taken(b1.request, r1.b.request, ws, r1.b.count, rest1)
      && Taken(b2.request, r2.b.request, ws, r1.b.count, rest2)
      && (r1.Through? ==> r1.b.count == 0)
    decreases |ws|
  {
    hide Retry, Le32, FromLe32, WriteTurn;
    if ws == [] {
      assert ws[0..] == [];
    } else {
      WriteTurnTwin(c, b1, b2, ws, rest1, rest2);
      var t1, t2 := WriteTurn(c, b1), WriteTurn(c, b2);
      assert ws[|ws| - (|ws| - 1)..] == ws[1..];
      if t1.Through? {
        WriteLoopTwin(c, t1.b, t2.b, ws[1..], rest1, rest2);
        var left := WriteLoop(c, t1.b).b.count;
        assert ws[1..][|ws[1..]| - left..] == ws[|ws| - left..];
      }
    }
  }

  lemma WriteTurnTwin(c: Config, b1: Block, b2: Block, ws: seq<word>, rest1: seq<byte>, rest2: seq<byte>)
    requires SameBut(b1, b2) && b1.Valid() && b2.Valid() && b1.count == |ws| && ws != []
    requires b1.request.items == LeAll(ws) + rest1 && b2.request.items == LeAll(ws) + rest2
    ensures var r1, r2 := WriteTurn(c, b1), WriteTurn(c, b2);
      && !r1.Broken? && !r2.Broken? && r1.Through? == r2.Through? && SameBut(r1.b, r2.b)
      && r1.b.response == b1.response && r2.b.response == b2.response && r1.b.code == b1.code
      && r1.b.request == b1.request.(got := b1.request.got + 4, items := LeAll(ws[1..]) + rest1)
      && r2.b.request == b2.request.(got := b2.request.got + 4, items := LeAll(ws[1..]) + rest2)
  {
    hide Retry, Le32, FromLe32, LeAll, Ring.Get;
    FirstWord(ws, rest1);
    FirstWord(ws, rest2);
    GetFront(b1.request, Le32(ws[0]), LeAll(ws[1..]) + rest1);
    GetFront(b2.request, Le32(ws[0]), LeAll(ws[1..]) + rest2);
  }

  lemma FirstWord(ws: seq<word>, rest: seq<byte>)
    requires ws != []
    ensures LeAll(ws) + rest == Le32(ws[0]) + (LeAll(ws[1..]) + rest)
  {
  }

  /** A complete write block uses exactly its own words, on every target and whatever it answers. */
  lemma {:induction false} WriteFraming(c: Config, b1: Block, b2: Block, ws: seq<word>, rest1: seq<byte>,
    rest2: seq<byte>)
    requires SameBut(b1, b2) && b1.Valid() && b2.Valid() && b1.count == |ws| && !IsRead(b1.code)
    requires b1.request.items == LeAll(ws) + rest1 && b2.request.items == LeAll(ws) + rest2
    requires b1.request.Room(0) && b2.request.Room(0) && |ws| < 0x4000
    ensures var r1, r2 := RunBlock(c, b1), RunBlock(c, b2);
      && !r1.Broken? && !r2.Broken? && SameBut(r1.b, r2.b)
      && r1.b.response == b1.response && r2.b.response == b2.response
      && r1.b.request == b1.request.(got := b1.request.got + 4 * |ws|, items := rest1)
      && r2.b.request == b2.request.(got := b2.request.got + 4 * |ws|, items := rest2)
  {
    hide Retry, LeAll, CancelWords, WriteLoop;
    WriteLoopTwin(c, b1, b2, ws, rest1, rest2);
    var r1, r2 := WriteLoop(c, b1), WriteLoop(c, b2);
    var left := ws[|ws| - r1.b.count..];
    LeAllLength(ws);
    LeAllLength(left);
    assert |left| == r1.b.count && r2.b.count == r1.b.count && r2.b.code == b2.code;
    if r1.Through? {
      assert left == [];
      NothingLeft(rest1, r1.b.request, RDBUFF_READ);
      NothingLeft(rest2, r2.b.request, RDBUFF_READ);
    } else {
      CancelAll(r1.b.request, |left|, LeAll(left), rest1, b1.code);
      CancelAll(r2.b.request, |left|, LeAll(left), rest2, b2.code);
      FinishExact(c, b1, r1, LeAll(left), rest1, ws);
      FinishExact(c, b2, r2, LeAll(left), rest2, ws);
    }
  }

  /** A write loop cut short, and its cancelled words. */
  lemma FinishExact(c: Config, b: Block, r: Ending, words: seq<byte>, rest: seq<byte>, ws: seq<word>)
    requires b.Valid() && r.b.Valid() && r.Cut? && r.b.count <= |ws|
    requires r.b.request == b.request.(got := b.request.got + 4 * (|ws| - r.b.count), items := r.b.request.items)
    requires CancelWords(r.b.request, r.b.count, r.b.code)
      == Some(r.b.request.(got := r.b.request.got + 4 * r.b.count, items := rest))
    ensures FinishBlock(r.b) == Through(r.b.(request := b.request.(got := b.request.got + 4 * |ws|, items := rest)))
  {
    hide CancelWords;
  }

  lemma CancelExact(request: Ring, n: nat, code: byte)
    requires request.Valid() && request.Room(0) && !IsRead(code) && n < 0x4000 && 4 * n <= |request.items|
    ensures CancelWords(request, n, code) == Some(request.(got := request.got + 4 * n, items := request.items[4 * n..]))
  {
    hide CancelWords, Ring.Room;
    Wrapped(n);
    CancelClaim(request, n, code);
  }

  /** Cancelled words, as many as a buffer below 64 KB can hold, are taken off. */
  lemma CancelAll(request: Ring, n: nat, words: seq<byte>, rest: seq<byte>, code: byte)
    requires request.Valid() && request.Room(0) && !IsRead(code) && n < 0x4000
    requires request.items == words + rest && |words| == 4 * n
    ensures CancelWords(request, n, code) == Some(request.(got := request.got + 4 * n, items := rest))
  {
    hide CancelWords, Ring.Room;
    CancelExact(request, n, code);
    assert request.items[4 * n..] == rest;
  }

  // Reading.

  /** b after words have been put out, and nothing else done to the buffers. */
  predicate PutOut(before: Block, after: Block, words: seq<word>) {
    && after.request == before.request
    && after.response == before.response.(items := before.response.items + LeAll(words))
  }

  lemma {:induction false} ReadLoopTwin(c: Config, b1: Block, b2: Block) returns (words: seq<word>)
    requires SameBut(b1, b2) && b1.Valid() && b2.Valid() && Fits(b2.response, b1.count)
    ensures var r1, r2 := ReadLoop(c, b1), ReadLoop(c, b2);
      && !r2.Broken? && PutOut(b2, r2.b, words) && |words| <= b1.count && r2.b.done == b2.done + |words|
      && (r1.Broken? <==> |b1.response.items| + 4 * |words| > b1.response.cap)
      && (r1.Broken? ==> r1.error == NoBufs)
      && (!r1.Broken? ==> r1.Through? == r2.Through? && SameBut(r1.b, r2.b) && PutOut(b1, r1.b, words))
      && (IsRead(b1.code) ==> IsRead(r2.b.code))
    decreases b1.count
  {
    hide Retry, LeAll, Le32, ReadTurn;
    words := [];
    if b1.count == 0 {
      LeAllEmpty();
      assert b1.response.items + [] == b1.response.items && b2.response.items + [] == b2.response.items;
    } else {
      words := ReadTurnTwin(c, b1, b2);
      var t1, t2 := ReadTurn(c, b1), ReadTurn(c, b2);
      LeAllLength(words);
      if t2.Through? {
        var u1 := if t1.Through? then t1.b else t2.b;
        var more := ReadLoopTwin(c, u1, t2.b);
        LeAllSplit(words, more);
        assert b2.response.items + LeAll(words) + LeAll(more) == b2.response.items + LeAll(words + more);
        assert b1.response.items + LeAll(words) + LeAll(more) == b1.response.items + LeAll(words + more);
        words := words + more;
      }
    }
  }

  lemma ReadTurnTwin(c: Config, b1: Block, b2: Block) returns (words: seq<word>)
    requires SameBut(b1, b2) && b1.Valid() && b2.Valid() && b1.count > 0 && Fits(b2.response, b1.count)
    ensures var r1, r2 := ReadTurn(c, b1), ReadTurn(c, b2);
      && !r2.Broken? && PutOut(b2, r2.b, words) && |words| == (if r2.Through? then 1 else 0)
      && r2.b.count == b2.count - 1 && r2.b.done == b2.done + |words|
      && (r1.Broken? <==> |b1.response.items| + 4 * |words| > b1.response.cap)
      && (r1.Broken? ==> r1.error == NoBufs && r2.Through?)
      && (!r1.Broken? ==> r1.Through? == r2.Through? && SameBut(r1.b, r2.b) && PutOut(b1, r1.b, words))
      && (IsRead(b1.code) ==> IsRead(r2.b.code)) && Fits(r2.b.response, r2.b.count)
  {
    hide Retry, Le32;
    LeAllEmpty();
    assert b1.response.items + [] == b1.response.items && b2.response.items + [] == b2.response.items;
    words := [];
    var r2 := ReadTurn(c, b2);
    if r2.Through? {
      words := [r2.b.data];
      assert LeAll(words) == Le32(words[0]) + LeAll([]) == Le32(words[0]);
    }
  }

  /** A read block leaves the request buffer alone, and fails exactly when its words do not fit the response. */
  lemma ReadFraming(c: Config, b1: Block, b2: Block) returns (words: seq<word>)
    requires SameBut(b1, b2) && b1.Valid() && b2.Valid() && IsRead(b1.code) && Fits(b2.response, b1.count)
    ensures var r1, r2 := RunBlock(c, b1), RunBlock(c, b2);
      && !r2.Broken? && PutOut(b2, r2.b, words) && |words| <= b1.count && r2.b.done == b2.done + |words|
      && (r1.Broken? <==> |b1.response.items| + 4 * |words| > b1.response.cap)
      && (r1.Broken? ==> r1.error == NoBufs)
      && (!r1.Broken? ==> SameBut(r1.b, r2.b) && PutOut(b1, r1.b, words))
  {
    hide Retry, LeAll, Le32, ReadLoop;
    LeAllEmpty();
    assert b1.response.items + [] == b1.response.items && b2.response.items + [] == b2.response.items;
    words := [];
    if !IsPosted(c.port, b1.code) {
      words := ReadLoopTwin(c, b1, b2);
    } else {
      var w1, w2 := BlockWire(c, b1), BlockWire(c, b2);
      if w1.ack == ACK_OK {
        words := ReadLoopTwin(c, w1, w2);
      }
    }
  }
}
