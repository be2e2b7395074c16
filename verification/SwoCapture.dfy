/** SWO capture (swo_uart_isr in firmware/src/dap/dap.c; swo_capture_control, SWO_Mode, SWO_Control and SWO_Data in
    firmware/src/dap/commands_swo.c): the UART interrupt fills a ring buffer that the command handler empties. */
module SwoCapture {
  import opened Bits
  import opened RingBuffer
  import opened Status
  import opened CircularBuffer

  const CMD_SWO_MODE: byte := 0x18
  const CMD_SWO_CONTROL: byte := 0x1a
  const CMD_SWO_DATA: byte := 0x1c
  const MODE_UART: byte := 0x01
  const MODE_MANCHESTER: byte := 0x02

  /** heard: what the UART has delivered since capture was last enabled; returned: what the host has got of it. */
  datatype Swo = Swo(
    capture: bool,
    error: bool,
    overrun: bool,
    ring: Circ,
    heard: seq<byte>,
    returned: seq<byte>)

  /** a is b with some bytes left out. */
  predicate Subsequence(a: seq<byte>, b: seq<byte>)
    decreases |b|
  {
    a == [] || (b != [] && (
      || Subsequence(a, b[..|b| - 1])
      || (a[|a| - 1] == b[|b| - 1] && Subsequence(a[..|a| - 1], b[..|b| - 1]))))
  }

  lemma {:induction false} SubsequenceKeep(a: seq<byte>, b: seq<byte>, c: seq<byte>)
    requires Subsequence(a, b)
    ensures Subsequence(a + c, b + c) && Subsequence(a, b + c)
    decreases |c|
  {
    if c == [] {
      assert a + c == a && b + c == b;
    } else {
      var d, x := c[..|c| - 1], c[|c| - 1];
      SubsequenceKeep(a, b, d);
      assert (a + c)[..|a + c| - 1] == a + d && (b + c)[..|b + c| - 1] == b + d;
      assert (a + c)[|a + c| - 1] == x == (b + c)[|b + c| - 1];
    }
  }

  /** While no overrun has been noted, what has been returned and what is still buffered are together exactly what was
      heard; after one, they are that with some bytes left out, still in order. */
  ghost predicate Invariant(s: Swo) {
    && s.ring.Valid()
    && (!s.overrun ==> s.heard == s.returned + s.ring.Items())
    && Subsequence(s.returned + s.ring.Items(), s.heard)
  }

  /** One turn of the loop in swo_uart_isr. */
  function HearStep(s: Swo, fifo: seq<byte>): (r: Swo)
    requires s.ring.Valid()
    ensures r.ring.Valid() && r.ring.start == s.ring.start && |r.ring.buf| == |s.ring.buf| && r.ring.len >= s.ring.len
  {
    var space := s.ring.PutRun();
    if space == 0 then s.(overrun := true, heard := s.heard + fifo)
    else
      var read := fifo[..Min(|fifo|, space)];
      s.(ring := s.ring.Fill(read), heard := s.heard + read)
  }

  /** All of an interrupt: it ends where the ring is found full. */
  function HearAll(s: Swo, rounds: seq<seq<byte>>): (r: Swo)
    requires s.ring.Valid()
    ensures r.ring.Valid()
    decreases |rounds|
  {
    if rounds == [] then s
    else if s.ring.PutRun() == 0 then HearStep(s, rounds[0])
    else HearAll(HearStep(s, rounds[0]), rounds[1..])
  }

  /** Any number of turns of the interrupt loop, in one interrupt or several. */
  function HearEach(s: Swo, rounds: seq<seq<byte>>): (r: Swo)
    requires s.ring.Valid()
    ensures r.ring.Valid() && r.ring.start == s.ring.start && |r.ring.buf| == |s.ring.buf| && r.ring.len >= s.ring.len
    decreases |rounds|
  {
    if rounds == [] then s else HearEach(HearStep(s, rounds[0]), rounds[1..])
  }

  /** One turn of the loop in SWO_Data, able to move so many bytes. */
  function TakeStep(s: Swo, n: nat): (r: Swo)
    requires s.ring.Valid() && n <= s.ring.GetRun()
    ensures r.ring.Valid()
  {
    s.(ring := s.ring.Drop(n), returned := s.returned + s.ring.Peek(n))
  }

  /** swo_capture_control. */
  function ControlStep(s: Swo, enable: bool): (r: Swo)
  {
    if enable then Swo(true, s.error, false, CircularBuffer.Reset(s.ring), [], [])
    else s.(capture := false, error := false)
  }

  lemma HearKeeps(s: Swo, fifo: seq<byte>)
    requires Invariant(s)
    ensures Invariant(HearStep(s, fifo))
  {
    hide Circ.At, Circ.Fill, Circ.Items, Subsequence;
    var space := s.ring.PutRun();
    if space == 0 {
      SubsequenceKeep(s.returned + s.ring.Items(), s.heard, fifo);
    } else {
      var read := fifo[..Min(|fifo|, space)];
      s.ring.FillItems(read);
      SubsequenceKeep(s.returned + s.ring.Items(), s.heard, read);
      assert s.returned + (s.ring.Items() + read) == s.returned + s.ring.Items() + read;
    }
  }

  lemma TakeKeeps(s: Swo, n: nat)
    requires Invariant(s) && n <= s.ring.GetRun()
    ensures Invariant(TakeStep(s, n))
    ensures TakeStep(s, n).returned == s.returned + s.ring.Items()[..n]
  {
    hide Circ.At, Circ.Drop, Circ.Items, Circ.Peek, Subsequence;
    s.ring.PeekItems(n);
    s.ring.DropItems(n);
    assert s.returned + s.ring.Items()[..n] + s.ring.Items()[n..] == s.returned + s.ring.Items();
  }

  lemma ControlKeeps(s: Swo, enable: bool)
    requires Invariant(s)
    ensures Invariant(ControlStep(s, enable))
  {
  }

  datatype Event = Hear(fifo: seq<byte>) | Take(n: nat) | Control(enable: bool)

  /** A turn of the interrupt loop, a turn of the copy loop, or a change of control. */
  function Next(s: Swo, e: Event): (r: Swo)
    requires s.ring.Valid()
    ensures r.ring.Valid()
  {
    match e
    case Hear(fifo) => HearStep(s, fifo)
    case Take(n) => TakeStep(s, Min(n, s.ring.GetRun()))
    case Control(enable) => ControlStep(s, enable)
  }

  function Run(s: Swo, es: seq<Event>): (r: Swo)
    requires s.ring.Valid()
    ensures r.ring.Valid()
    decreases |es|
  {
    if es == [] then s else Run(Next(s, es[0]), es[1..])
  }

  /** Of what the UART has, as much is kept, from the front, as is free in one piece; if nothing is, all is lost, and
      the overrun is noted. */
  lemma HearTakes(s: Swo, fifo: seq<byte>)
    requires Invariant(s)
    ensures var n := Next(s, Hear(fifo));
      var free := |s.ring.buf| - s.ring.len;
      var end := s.ring.start + s.ring.len;
      var stretch := if end < |s.ring.buf| then |s.ring.buf| - end else free;
      var kept := fifo[..if |fifo| <= stretch then |fifo| else stretch];
      && n.ring.Items() == s.ring.Items() + kept && n.returned == s.returned
      && n.heard == s.heard + (if free == 0 then fifo else kept)
      && n.overrun == (s.overrun || free == 0)
      && n.capture == s.capture && n.error == s.error
  {
    hide Circ.At, Circ.Fill, Circ.Items, Circ.Peek, Circ.PutRun, Subsequence;
    var free := |s.ring.buf| - s.ring.len;
    s.ring.Longest(0, s.ring.PutRun());
    s.ring.Longest(0,
      if s.ring.start + s.ring.len < |s.ring.buf| then |s.ring.buf| - (s.ring.start + s.ring.len) else free);
    if s.ring.PutRun() > 0 {
      s.ring.FillItems(fifo[..Min(|fifo|, s.ring.PutRun())]);
    }
    assert s.ring.Items() + [] == s.ring.Items();
  }

  /** All that an interrupt has, or gets to keep, in a run. */
  function Heard(s: Swo, es: seq<Event>): (bs: seq<byte>)
    requires s.ring.Valid()
    decreases |es|
  {
    if es == [] then [] else
    (if es[0].Hear? then
       if s.ring.PutRun() == 0 then es[0].fifo else es[0].fifo[..Min(|es[0].fifo|, s.ring.PutRun())]
     else [])
      + Heard(Next(s, es[0]), es[1..])
  }

  /** From one enable to the next, what is counted as heard is just that. */
  lemma {:induction false} HeardAll(s: Swo, es: seq<Event>)
    requires s.ring.Valid() && Control(true) !in es
    ensures Run(s, es).heard == s.heard + Heard(s, es)
    decreases |es|
  {
    hide Circ.Fill, Circ.Drop, Circ.Peek, Circ.At, Circ.PutRun, Circ.GetRun;
    if es != [] {
      HeardAll(Next(s, es[0]), es[1..]);
    }
  }

  /** What control changes: enabling starts with an empty ring, no overrun and an account of its own; disabling clears
      the error, and leaves what is buffered. */
  lemma ControlSets(s: Swo)
    requires s.ring.Valid()
    ensures var n := Next(s, Control(true));
      n.capture && !n.overrun && n.error == s.error && n.ring.len == 0 && n.heard == n.returned == []
    ensures var n := Next(s, Control(false));
      && !n.capture && !n.error && n.overrun == s.overrun && n.ring == s.ring
      && n.heard == s.heard && n.returned == s.returned
  {
  }

  /** An interrupt has all its rounds, or ends with the first one that finds the ring full. */
  lemma {:induction false} InterruptEnds(s: Swo, rounds: seq<seq<byte>>) returns (n: nat)
    requires s.ring.Valid()
    ensures n <= |rounds|
    ensures n == |rounds| ==> HearAll(s, rounds) == HearEach(s, rounds)
    ensures n < |rounds| ==>
      var r := HearEach(s, rounds[..n]);
      r.ring.len == |r.ring.buf| && HearAll(s, rounds) == HearEach(s, rounds[..n + 1])
    ensures forall k :: 0 <= k < n ==> var r := HearEach(s, rounds[..k]); r.ring.len < |r.ring.buf|
    decreases |rounds|
  {
    hide HearStep;
    n := 0;
    if rounds != [] {
      assert rounds[..0] == [];
      if s.ring.PutRun() == 0 {
        assert rounds[..1][1..] == [];
      } else {
        var m := InterruptEnds(HearStep(s, rounds[0]), rounds[1..]);
        n := m + 1;
        assert rounds[..|rounds|] == rounds;
        HearEachFirst(s, rounds, n);
        if n < |rounds| {
          HearEachFirst(s, rounds, n + 1);
        }
        forall k | 0 <= k < n
          ensures var r := HearEach(s, rounds[..k]); r.ring.len < |r.ring.buf|
        {
          if k > 0 {
            HearEachFirst(s, rounds, k);
          }
        }
      }
    }
  }

  lemma HearEachFirst(s: Swo, rounds: seq<seq<byte>>, k: nat)
    requires s.ring.Valid() && 1 <= k <= |rounds|
    ensures HearEach(s, rounds[..k]) == HearEach(HearStep(s, rounds[0]), rounds[1..][..k - 1])
  {
    hide HearStep;
    assert rounds[..k][1..] == rounds[1..][..k - 1];
  }

  /** Interrupts, commands and copying in any order. Until capture is enabled again, what has been heard and what has
      been returned only grow, and an overrun once noted stays noted. */
  lemma {:induction false} AnyRun(s: Swo, es: seq<Event>)
    requires Invariant(s)
    ensures Invariant(Run(s, es))
    ensures (forall e <- es :: e != Control(true)) ==>
      var r := Run(s, es);
      s.heard <= r.heard && s.returned <= r.returned && (s.overrun ==> r.overrun)
    decreases |es|
  {
    hide Next, Invariant, Circ.Items;
    InvariantRing(s);
    if es != [] {
      NextKeeps(s, es[0]);
      AnyRun(Next(s, es[0]), es[1..]);
      assert es[0] in es && forall e <- es[1..] :: e in es;
      var next, r := Next(s, es[0]), Run(s, es);
      if forall e <- es :: e != Control(true) {
        Further(s.heard, next.heard, r.heard);
        Further(s.returned, next.returned, r.returned);
      }
    }
  }

  /** A run that ends without an overrun noted has lost nothing: the host's bytes and the buffered ones are all that
      was heard since capture was enabled. */
  lemma NothingLost(s: Swo, es: seq<Event>)
    requires s.ring.Valid()
    ensures var r := Run(ControlStep(s, true), es);
      && (!r.overrun ==> r.heard == r.returned + r.ring.Items())
      && Subsequence(r.returned + r.ring.Items(), r.heard)
  {
    hide Next;
    AnyRun(ControlStep(s, true), es);
  }

  lemma NextKeeps(s: Swo, e: Event)
    requires Invariant(s)
    ensures Invariant(Next(s, e))
    ensures e != Control(true) ==>
      var r := Next(s, e);
      s.heard <= r.heard && s.returned <= r.returned && (s.overrun ==> r.overrun)
  {
    hide Circ.Items, Circ.Fill, Circ.Drop, Circ.Peek;
    match e
    case Hear(fifo) => HearKeeps(s, fifo);
    case Take(n) => TakeKeeps(s, Min(n, s.ring.GetRun()));
    case Control(enable) => ControlKeeps(s, enable);
  }

  lemma Further(a: seq<byte>, b: seq<byte>, c: seq<byte>)
    requires a <= b <= c
    ensures a <= c
  {
    assert c[..|b|][..|a|] == c[..|a|];
  }

  lemma InvariantRing(s: Swo)
    requires Invariant(s)
    ensures s.ring.Valid()
  {
  }

  /** What the UART delivers during a turn of the copy loop, between its claims and their end, and after it. */
  datatype Arrival = Arrival(during: seq<seq<byte>>, after: seq<seq<byte>>)

  /** What arrives after a claim was taken leaves the claimed bytes alone. */
  lemma {:induction false} HeardBehind(s: Swo, rounds: seq<seq<byte>>, m: nat)
    requires s.ring.Valid() && m <= s.ring.GetRun()
    ensures m <= HearEach(s, rounds).ring.GetRun() && HearEach(s, rounds).ring.Peek(m) == s.ring.Peek(m)
    decreases |rounds|
  {
    hide Circ.Items, Circ.Peek, Circ.Fill, Circ.At;
    if rounds != [] {
      if s.ring.PutRun() > 0 {
        s.ring.FillItems(rounds[0][..Min(|rounds[0]|, s.ring.PutRun())]);
      }
      HeardBehind(HearStep(s, rounds[0]), rounds[1..], m);
    }
  }

  lemma {:induction false} HeardReturned(s: Swo, rounds: seq<seq<byte>>)
    requires s.ring.Valid()
    ensures HearEach(s, rounds).returned == s.returned
    decreases |rounds|
  {
    if rounds != [] {
      HeardReturned(HearStep(s, rounds[0]), rounds[1..]);
    }
  }

  /** The bytes one turn of the copy loop moves. */
  function Moved(ring: Circ, response: Ring, max: nat): (n: nat)
    requires ring.Valid() && response.Valid()
  {
    Min(Min(ring.GetRun(), max), response.PutRun())
  }

  /** All turns of the copy loop, with what the UART delivers during and after each of them: the capture, the response
      and the count. */
  function CopyRounds(s: Swo, response: Ring, max: nat, count: nat, arrivals: seq<Arrival>): (r: (Swo, Ring, nat))
    requires s.ring.Valid() && response.Valid()
    decreases if count < max then max - count else 0, |arrivals|
  {
    var m := Moved(s.ring, response, max);
    var (s1, response1) := CopyTurn(s, response, m, arrivals);
    if count + m < max && s1.ring.len > 0 && response1.Space() > 0
    then CopyRounds(s1, response1, max, count + m, if arrivals == [] then [] else arrivals[1..])
    else (s1, response1, count + m)
  }

  function CopyTurn(s: Swo, response: Ring, m: nat, arrivals: seq<Arrival>): (r: (Swo, Ring))
    requires s.ring.Valid() && response.Valid() && m <= s.ring.GetRun() && m <= response.Space()
    ensures r.0.ring.Valid() && r.1.Valid() && r.1.Space() == response.Space() - m
    ensures arrivals == [] ==> r.0.ring.len == s.ring.len - m
  {
    (if arrivals == [] then TakeStep(s, m)
     else HearEach(TakeStep(HearEach(s, arrivals[0].during), m), arrivals[0].after),
     response.(items := response.items + s.ring.Peek(m)))
  }

  /** The count SWO_Data arrives at when no interrupt comes in between. */
  function QuietCount(ring: Circ, response: Ring, max: nat, count: nat): (n: nat)
    requires ring.Valid() && response.Valid()
    decreases if count < max then max - count else 0, ring.len
  {
    var m := Moved(ring, response, max);
    var ring1 := ring.Drop(m);
    var response1 := response.(items := response.items + ring.Peek(m));
    if count + m < max && ring1.len > 0 && response1.Space() > 0 then QuietCount(ring1, response1, max, count + m)
    else count + m
  }

  lemma {:induction false} QuietRounds(s: Swo, response: Ring, max: nat, count: nat)
    requires s.ring.Valid() && response.Valid()
    ensures CopyRounds(s, response, max, count, []).2 == QuietCount(s.ring, response, max, count)
    decreases if count < max then max - count else 0, s.ring.len
  {
    hide Circ.Peek, Circ.Drop;
    MovedBound(s.ring, response, max);
    var m := Moved(s.ring, response, max);
    var (s1, response1) := CopyTurn(s, response, m, []);
    if count + m < max && s1.ring.len > 0 && response1.Space() > 0 {
      QuietRounds(s1, response1, max, count + m);
    }
  }

  lemma QuietTurn(ring: Circ, response: Ring, max: nat, count: nat)
    requires ring.Valid() && response.Valid() && response.got == 0
    ensures var m := Min(Min(ring.GetRun(), max), response.Space());
      && m <= ring.GetRun() && ring.Drop(m).len == ring.len - m && m == Moved(ring, response, max)
      && var response1 := response.(items := response.items + ring.Peek(m));
        QuietCount(ring, response, max, count) ==
          if count + m < max && ring.len > m && response.Space() > m
          then QuietCount(ring.Drop(m), response1, max, count + m) else count + m
  {
    Linear(response);
  }

  /** Once the ring starts where its array does, one turn moves all it can. */
  lemma QuietRest(ring: Circ, response: Ring, max: nat, count: nat)
    requires ring.Valid() && response.Valid() && response.got == 0 && ring.start == 0
    ensures QuietCount(ring, response, max, count) == count + Min(max, Min(ring.len, response.Space()))
  {
    hide QuietCount, Circ.Peek, Circ.Drop;
    QuietTurn(ring, response, max, count);
  }

  /** The loop claims max bytes in every turn, not what is left of them (lines 182 and 191). If no interrupt comes in
      between, it returns the bytes asked for, as far as they are there and fit, except when the buffered bytes wrap
      round the end of the array before max: then more than max come back, if there are more. */
  lemma QuietCountExact(ring: Circ, response: Ring, max: nat)
    requires ring.Valid() && response.Valid() && response.got == 0
    ensures var n := QuietCount(ring, response, max, 0);
      var run, most := ring.GetRun(), Min(ring.len, response.Space());
      && (n > max <==> run < max < most)
      && (n <= max ==> n == Min(max, most))
      && (n > max ==> n == run + Min(max, most - run))
  {
    hide QuietCount, Circ.Peek;
    QuietTurn(ring, response, max, 0);
    var m := Min(Min(ring.GetRun(), max), response.Space());
    if m < max && ring.len > m && response.Space() > m {
      QuietRest(ring.Drop(m), response.(items := response.items + ring.Peek(m)), max, m);
    }
  }

  // With interrupts: when can more than max bytes come back?

  /** What can be checked before the loop: the first turn gets all, or the response is full at max, or the bytes up to
      max end where the array ends, so that no turn can run over. */
  predicate KeepsMax(ring: Circ, response: Ring, max: nat)
    requires ring.Valid() && response.Valid()
  {
    max <= 1 || max <= ring.GetRun() || response.Space() <= max || (ring.start + max) % |ring.buf| == 0
  }

  /** Whatever the UART delivers during and between the turns, the maximum is kept, if and only if that holds. */
  lemma MaxKeptIff(s: Swo, response: Ring, max: nat)
    requires s.ring.Valid() && response.Valid() && response.got == 0
    ensures (forall arrivals: seq<Arrival> :: CopyRounds(s, response, max, 0, arrivals).2 <= max)
      <==> KeepsMax(s.ring, response, max)
  {
    hide CopyRounds;
    if KeepsMax(s.ring, response, max) {
      forall arrivals: seq<Arrival>
        ensures CopyRounds(s, response, max, 0, arrivals).2 <= max
      {
        MaxKept(s, response, max, arrivals);
      }
    } else {
      var arrivals := Overrunning(s, response, max, 0);
    }
  }

  /** Three bytes are buffered and four asked for: it looks safe, but with four more in time seven come back. */
  lemma SevenForFour(s: Swo, response: Ring)
    requires s.ring.Valid() && |s.ring.buf| == 16 && s.ring.start == 0 && s.ring.len == 3
    requires response.Valid() && response.got == 0 && response.Space() >= 16
    ensures QuietCount(s.ring, response, 4, 0) == 3
    ensures CopyRounds(s, response, 4, 0, [Arrival([], [[1, 2, 3, 4]])]).2 == 7
  {
    hide Circ.Items, Circ.Peek, Circ.Fill, CopyRounds, QuietCount, TakeStep, HearStep, Moved;
    var fifo: seq<byte> := [1, 2, 3, 4];
    var arrivals := [Arrival([], [fifo])];
    QuietCountExact(s.ring, response, 4);
    Linear(response);
    FullTurn(s, response, 4, 3);
    TakenPlace(s, 3);
    var taken := TakeStep(s, 3);
    HeardPlace(taken, fifo);
    assert [fifo][1..] == [] && arrivals[1..] == [];
    assert HearEach(taken, [fifo]) == HearStep(taken, fifo);
    RoundsTurn(s, response, 4, 0, arrivals);
    var (s1, response1) := CopyTurn(s, response, 3, arrivals);
    Linear(response1);
    FullTurn(s1, response1, 4, 4);
    RoundsTurn(s1, response1, 4, 3, []);
  }

  lemma FullTurn(s: Swo, response: Ring, max: nat, run: nat)
    requires s.ring.Valid() && response.Valid() && s.ring.GetRun() == run <= max && run <= response.PutRun()
    ensures Moved(s.ring, response, max) == run
  {
  }

  lemma MaxKept(s: Swo, response: Ring, max: nat, arrivals: seq<Arrival>)
    requires s.ring.Valid() && response.Valid() && response.got == 0 && KeepsMax(s.ring, response, max)
    ensures CopyRounds(s, response, max, 0, arrivals).2 <= max
  {
    hide CopyRounds, CopyTurn, Circ.Peek, Circ.Drop;
    if response.Space() <= max {
      SpaceKeeps(s, response, max, 0, arrivals);
    } else if max <= 1 {
      OneKept(s, response, max, arrivals);
    } else if max > s.ring.GetRun() {
      EndKeeps(s, response, max, 0, arrivals);
    } else {
      Linear(response);
      MovedBound(s.ring, response, max);
      RoundsTurn(s, response, max, 0, arrivals);
    }
  }

  lemma {:induction false} OneKept(s: Swo, response: Ring, max: nat, arrivals: seq<Arrival>)
    requires s.ring.Valid() && response.Valid() && max <= 1
    ensures CopyRounds(s, response, max, 0, arrivals).2 <= max
    decreases |arrivals|
  {
    hide CopyRounds, CopyTurn, Circ.Peek, Circ.Drop;
    RoundsTurn(s, response, max, 0, arrivals);
    MovedBound(s.ring, response, max);
    var m := Moved(s.ring, response, max);
    var (s1, response1) := CopyTurn(s, response, m, arrivals);
    if m < max && s1.ring.len > 0 && response1.Space() > 0 && arrivals != [] {
      OneKept(s1, response1, max, arrivals[1..]);
    }
  }

  lemma {:induction false} SpaceKeeps(s: Swo, response: Ring, max: nat, count: nat, arrivals: seq<Arrival>)
    requires s.ring.Valid() && response.Valid() && count + response.Space() <= max
    ensures CopyRounds(s, response, max, count, arrivals).2 <= max
    decreases if count < max then max - count else 0, |arrivals|
  {
    hide CopyRounds, CopyTurn, Circ.Peek, Circ.Drop;
    RoundsTurn(s, response, max, count, arrivals);
    MovedBound(s.ring, response, max);
    var m := Moved(s.ring, response, max);
    var (s1, response1) := CopyTurn(s, response, m, arrivals);
    if count + m < max && s1.ring.len > 0 && response1.Space() > 0 {
      TurnGoesOn(s, response, max, count, arrivals);
      SpaceKeeps(s1, response1, max, count + m, if arrivals == [] then [] else arrivals[1..]);
    }
  }

  /** If the bytes still wanted end where the array ends, every turn stops there. */
  lemma {:induction false} EndKeeps(s: Swo, response: Ring, max: nat, count: nat, arrivals: seq<Arrival>)
    requires s.ring.Valid() && response.Valid() && count < max && (s.ring.start + max - count) % |s.ring.buf| == 0
    ensures CopyRounds(s, response, max, count, arrivals).2 <= max
    decreases max - count, |arrivals|
  {
    hide CopyRounds, CopyTurn, Circ.Peek;
    RoundsTurn(s, response, max, count, arrivals);
    MovedBound(s.ring, response, max);
    var m := Moved(s.ring, response, max);
    var (s1, response1) := CopyTurn(s, response, m, arrivals);
    EndAhead(s.ring.start, max - count, |s.ring.buf|);
    if count + m < max && s1.ring.len > 0 && response1.Space() > 0 {
      TurnGoesOn(s, response, max, count, arrivals);
      TurnPlace(s, response, m, arrivals);
      EndShifts(s.ring.start, max - count, m, |s.ring.buf|);
      EndKeeps(s1, response1, max, count + m, if arrivals == [] then [] else arrivals[1..]);
    }
  }

  /** Where the ring stands after a turn. */
  lemma TurnPlace(s: Swo, response: Ring, m: nat, arrivals: seq<Arrival>)
    requires s.ring.Valid() && response.Valid() && m <= s.ring.GetRun() && m <= response.Space()
    ensures var (s1, _) := CopyTurn(s, response, m, arrivals);
      && |s1.ring.buf| == |s.ring.buf|
      && s1.ring.start == if s.ring.start + m < |s.ring.buf| then s.ring.start + m else s.ring.start + m - |s.ring.buf|
  {
  }

  lemma TurnGoesOn(s: Swo, response: Ring, max: nat, count: nat, arrivals: seq<Arrival>)
    requires s.ring.Valid() && response.Valid()
    requires var m := Moved(s.ring, response, max);
      m <= s.ring.GetRun() && m <= response.Space() &&
      var (s1, response1) := CopyTurn(s, response, m, arrivals);
      count + m < max && s1.ring.len > 0 && response1.Space() > 0
    ensures Moved(s.ring, response, max) > 0 || arrivals != []
  {
    MovedBound(s.ring, response, max);
  }

  lemma EndAhead(start: nat, need: nat, size: nat)
    requires start < size && need > 0 && (start + need) % size == 0
    ensures size - start <= need
  {
  }

  lemma EndShifts(start: nat, need: nat, m: nat, size: nat)
    requires start < size && m <= size - start && m <= need
    ensures var start1 := if start + m < size then start + m else start + m - size;
      start1 < size && (start1 + (need - m)) % size == (start + need) % size
  {
    if start + m >= size {
      ModDown(start + need, size);
    }
  }

  lemma ModDown(a: nat, n: nat)
    requires 0 < n <= a
    ensures (a - n) % n == a % n
  {
    var q, r := a / n, a % n;
    assert a - n == n * (q - 1) + r;
    ModOf(q - 1, r, n);
  }

  /** Arrivals with which some turn runs over. Each is just so long that the turn after it does so, or stays short. */
  lemma {:induction false} Overrunning(s: Swo, response: Ring, max: nat, count: nat) returns (arrivals: seq<Arrival>)
    requires s.ring.Valid() && response.Valid() && response.got == 0
    requires 2 <= max && count < max && response.Space() > max - count
    requires (s.ring.start + max - count) % |s.ring.buf| != 0
    requires s.ring.GetRun() < max - count || (count > 0 && s.ring.GetRun() > max - count)
    ensures CopyRounds(s, response, max, count, arrivals).2 > max
    decreases max - count, if s.ring.len == 0 then 1 else 0
  {
    hide CopyRounds, Circ.Peek, Circ.Items, HearStep, TakeStep, WantedNext;
    var need, run := max - count, s.ring.GetRun();
    Linear(response);
    assert Moved(s.ring, response, max) == Min(Min(run, max), response.Space());
    if run > need {
      arrivals := [];
      RoundsTurn(s, response, max, count, []);
    } else {
      var taken := TakeStep(s, run);
      TakenPlace(s, run);
      EndShifts(s.ring.start, need, run, |s.ring.buf|);
      var n := WantedNext(taken.ring, need - run, count + run);
      var fifo: seq<byte> := Repeat(0, n);
      var s1 := HearStep(taken, fifo);
      HeardPlace(taken, fifo);
      WantedShort(taken.ring, s1.ring, need - run, count + run);
      var response1 := response.(items := response.items + s.ring.Peek(run));
      var more := Overrunning(s1, response1, max, count + run);
      arrivals := [Arrival([], [fifo])] + more;
      assert arrivals[0] == Arrival([], [fifo]) && arrivals[1..] == more && [fifo][1..] == [];
      assert HearEach(taken, [fifo]) == s1;
      RoundsTurn(s, response, max, count, arrivals);
    }
  }

  /** A turn that takes all of a stretch leaves the ring empty or at the start of its array. */
  lemma TakenPlace(s: Swo, run: nat)
    requires s.ring.Valid() && run == s.ring.GetRun()
    ensures var t := TakeStep(s, run);
      && |t.ring.buf| == |s.ring.buf| && t.ring.len == s.ring.len - run && (t.ring.len == 0 || t.ring.start == 0)
      && t.ring.start ==
        if s.ring.start + run < |s.ring.buf| then s.ring.start + run else s.ring.start + run - |s.ring.buf|
  {
  }

  lemma HeardPlace(t: Swo, fifo: seq<byte>)
    requires t.ring.Valid() && |fifo| <= t.ring.PutRun()
    ensures HearStep(t, fifo).ring.len == t.ring.len + |fifo|
  {
  }

  /** So many bytes that the next turn runs over, or else as many as go up to the end of the array. */
  function WantedNext(ring: Circ, need: nat, count: nat): (n: nat)
    requires ring.Valid() && (ring.len == 0 || ring.start == 0)
    ensures n <= ring.PutRun()
  {
    if ring.start == 0 && ring.len > 0 then ring.PutRun()
    else if |ring.buf| - ring.start <= need then |ring.buf| - ring.start
    else if count == 0 then 1 else need + 1
  }

  lemma WantedShort(ring: Circ, filled: Circ, need: nat, count: nat)
    requires ring.Valid() && filled.Valid() && (ring.len == 0 || ring.start == 0)
    requires filled.start == ring.start && |filled.buf| == |ring.buf|
    requires filled.len == ring.len + WantedNext(ring, need, count)
    requires need > 0 && (count == 0 ==> need >= 2 && ring.len == 0) && (ring.start + need) % |ring.buf| != 0
    ensures filled.GetRun() < need || (count > 0 && filled.GetRun() > need)
    ensures filled.len > 0
  {
    if |ring.buf| - ring.start == need {
      ModOf(1, 0, |ring.buf|);
      assert false;
    }
  }

  lemma Linear(r: Ring)
    requires r.Valid() && r.got == 0
    ensures r.PutRun() == r.Space()
  {
  }

  class SwoPort {
    var connected: bool     // the probe is connected for SWD
    var mode: byte
    var capture: bool
    var error: bool
    var overrun: bool
    var ring: Circ
    var response: Ring
    ghost var heard: seq<byte>
    ghost var returned: seq<byte>

    ghost function State(): (s: Swo)
      reads this
    {
      Swo(capture, error, overrun, ring, heard, returned)
    }

    ghost predicate Valid()
      reads this
    {
      Invariant(State()) && response.Valid() && response.cap < 0x1_0000
    }

    constructor (size: nat)
      requires 0 < size < 0x1_0000
      ensures Valid() && !capture && !overrun && ring.len == 0 && response == Ring(size, 0, [])
    {
      connected, mode, capture, error, overrun := false, 0, false, false, false;
      ring, response := Circ(seq(size, _ => 0), 0, 0), Ring(size, 0, []);
      heard, returned := [], [];
    }

    /** One turn of the interrupt loop; false if the ring was full and the UART has been emptied. */
    method Receive(fifo: seq<byte>) returns (kept: bool)
      requires Valid()
      modifies `overrun, `ring, `heard
      ensures Valid() && State() == HearStep(old(State()), fifo) && kept == (old(ring.PutRun()) > 0)
    {
      hide Invariant, Circ.At, Circ.Items, Circ.Fill;
      InvariantValid(State());
      HearKeeps(State(), fifo);
      var space := ring.PutRun();
      kept := space > 0;
      if kept {
        var read := fifo[..Min(|fifo|, space)];
        ring := ring.Fill(read);
        heard := heard + read;
      } else {
        overrun := true;
        heard := heard + fifo;
      }
    }

    /** Interrupts, round after round. */
    method ReceiveEach(rounds: seq<seq<byte>>)
      requires Valid()
      modifies `overrun, `ring, `heard
      ensures Valid() && State() == HearEach(old(State()), rounds)
    {
      hide Invariant, HearStep;
      InvariantValid(State());
      ghost var all := HearEach(State(), rounds);
      assert rounds[0..] == rounds;
      for i := 0 to |rounds|
        invariant Valid() && ring.Valid() && HearEach(State(), rounds[i..]) == all
      {
        assert rounds[i..][1..] == rounds[i + 1..];
        var _ := Receive(rounds[i]);
        InvariantValid(State());
      }
    }

    /** swo_uart_isr: what the UART has, round after round. */
    method UartIsr(failed: bool, rounds: seq<seq<byte>>)
      requires Valid()
      modifies `error, `overrun, `ring, `heard
      ensures Valid() && State() == HearAll(old(State()).(error := old(error) || failed), rounds)
    {
      if failed {
        error := true;
      }
      for i := 0 to |rounds|
        invariant Valid()
        invariant HearAll(State(), rounds[i..]) == HearAll(old(State()).(error := old(error) || failed), rounds)
      {
        var kept := Receive(rounds[i]);
        assert rounds[i..][1..] == rounds[i + 1..];
        if !kept {
          break;
        }
      }
    }

    /** swo_capture_control. */
    method CaptureControl(enable: bool)
      requires Valid()
      modifies `capture, `error, `overrun, `ring, `heard, `returned
      ensures Valid() && State() == ControlStep(old(State()), enable)
    {
      ControlKeeps(State(), enable);
      if enable {
        capture, overrun := true, false;
        ring := CircularBuffer.Reset(ring);
        heard, returned := [], [];
      } else {
        capture, error := false, false;
      }
    }

    method Respond(command: byte, status: byte) returns (failed: bool)
      requires Valid()
      modifies `response
      ensures Valid()
      ensures failed == (old(response).Space() < 2)
      ensures !failed ==> response == old(response).(items := old(response).items + [command, status])
    {
      var put := response.Put([command, status]);
      failed := put.None?;
      if !failed {
        response := put.value;
      }
    }

    /** SWO_Mode: only when connected for SWD, and not Manchester; a capture that runs is stopped. */
    method SetMode(newMode: byte) returns (failed: bool)
      requires Valid()
      modifies this
      ensures Valid() && connected == old(connected)
      ensures var ok := connected && newMode < MODE_MANCHESTER;
        && mode == (if ok then newMode else old(mode))
        && State() == (if ok && old(mode) == MODE_UART then ControlStep(old(State()), false) else old(State()))
        && failed == (old(response).Space() < 2)
        && (!failed ==>
          response.items == old(response).items + [CMD_SWO_MODE, if ok then RESPONSE_OK else RESPONSE_ERROR])
    {
      var status := RESPONSE_OK;
      if !connected || newMode >= MODE_MANCHESTER {
        status := RESPONSE_ERROR;
      } else {
        if mode == MODE_UART {
          CaptureControl(false);
        }
        mode := newMode;
      }
      failed := Respond(CMD_SWO_MODE, status);
    }

    /** SWO_Control: capture can only be enabled in UART mode. */
    method Control(control: byte) returns (failed: bool)
      requires Valid()
      modifies this
      ensures Valid() && connected == old(connected) && mode == old(mode)
      ensures var ok := connected && (control == 1 ==> mode == MODE_UART);
        && State() == (if ok then ControlStep(old(State()), control == 1) else old(State()))
        && failed == (old(response).Space() < 2)
        && (!failed ==>
          response.items == old(response).items + [CMD_SWO_CONTROL, if ok then RESPONSE_OK else RESPONSE_ERROR])
    {
      var status := RESPONSE_OK;
      if !connected || (control == 1 && mode != MODE_UART) {
        status := RESPONSE_ERROR;
      } else {
        CaptureControl(control == 1);
      }
      failed := Respond(CMD_SWO_CONTROL, status);
    }

    function Status(): (b: byte)
      reads this
    {
      ToInt(capture) + 0x40 * ToInt(error) + 0x80 * ToInt(overrun)
    }

    /** One turn of the copy loop, with what the UART delivers between its claims and their end, and after it. */
    method CopyOnce(max: nat, arrivals: seq<Arrival>) returns (m: nat, ghost moved: seq<byte>)
      requires Valid()
      modifies `ring, `response, `returned, `overrun, `heard
      ensures Valid() && m == Moved(old(ring), old(response), max) && m <= old(ring).GetRun()
      ensures m <= old(response).Space() && m == |moved|
      ensures (State(), response) == CopyTurn(old(State()), old(response), m, arrivals)
      ensures returned == old(returned) + moved
      ensures response == old(response).(items := old(response).items + moved)
    {
      hide Invariant, HearEach, Circ.At, Circ.Items, Circ.Peek;
      InvariantValid(State());
      m := Moved(ring, response, max);
      moved := ring.Peek(m);
      response := response.(items := response.items + ring.Peek(m));
      if arrivals != [] {
        HeardBehind(State(), arrivals[0].during, m);
        HeardReturned(State(), arrivals[0].during);
        ReceiveEach(arrivals[0].during);
        InvariantValid(State());
      }
      TakeKeeps(State(), m);
      returned := returned + ring.Peek(m);
      ring := ring.Drop(m);
      if arrivals != [] {
        HeardReturned(State(), arrivals[0].after);
        ReceiveEach(arrivals[0].after);
      }
    }

    /** Command id, status, and room for the count. */
    method BeginData() returns (failed: bool)
      requires Valid()
      modifies `response
      ensures Valid() && failed == Begun(old(response), Status()).None?
      ensures !failed ==> response == Begun(old(response), Status()).value
    {
      var put := response.Put([CMD_SWO_DATA]);
      if put.None? {
        return true;
      }
      response := put.value;
      put := response.Put([Status()]);
      if put.None? {
        return true;
      }
      response := put.value;
      put := response.PutClaimed([0, 0]);
      if put.None? {
        return true;
      }
      response := put.value;
      failed := false;
    }

    /** The copy loop, with what the UART delivers during and after each of its turns. */
    method CopyLoop(max: nat, arrivals: seq<Arrival>) returns (count: nat, ghost data: seq<byte>)
      requires Valid()
      modifies `ring, `response, `returned, `overrun, `heard
      ensures Valid() && (State(), response, count) == CopyRounds(old(State()), old(response), max, 0, arrivals)
      ensures count == |data| && returned == old(returned) + data
      ensures response == old(response).(items := old(response).items + data)
      ensures count < 2 * max || count == max == 0
    {
      hide Invariant, CopyRounds, CopyTurn, HearStep, TakeStep, Moved, Circ.At, Circ.Items, Circ.Drop, Circ.Peek,
        Circ.Fill;
      InvariantValid(State());
      ghost var result := CopyRounds(State(), response, max, 0, arrivals);
      count, data := 0, [];
      assert response.items + [] == response.items && returned + [] == returned && arrivals[0..] == arrivals;
      var k := 0;
      var go := true;
      while go
        invariant Valid() && k <= |arrivals| && count == |data|
        invariant returned == old(returned) + data
        invariant response == old(response).(items := old(response).items + data)
        invariant go && max > 0 ==> count < max
        invariant max == 0 ==> count == 0
        invariant max > 0 ==> count < 2 * max
        invariant ring.Valid()
        invariant result ==
          if go then CopyRounds(State(), response, max, count, arrivals[k..]) else (State(), response, count)
        decreases go, if count < max then max - count else 0, |arrivals| - k
      {
        MovedBound(ring, response, max);
        RoundsTurn(State(), response, max, count, arrivals[k..]);
        var m;
        ghost var before, moved := data, [];
        m, moved := CopyOnce(max, arrivals[k..]);
        data := data + moved;
        assert old(response).items + before + moved == old(response).items + data;
        assert old(returned) + before + moved == old(returned) + data;
        count := count + m;
        if k < |arrivals| {
          assert arrivals[k..][1..] == arrivals[k + 1..];
          k := k + 1;
        }
        InvariantValid(State());
        go := count < max && ring.len > 0 && response.Space() > 0;
      }
    }

    /** SWO_Data: the count it reports is the number of bytes that follow it, they are the oldest that were buffered,
        in order, and every byte the host has ever got of this capture is accounted for; less than twice the
        bytes asked for come back. */
    method Data(max: nat, arrivals: seq<Arrival>) returns (failed: bool, ghost data: seq<byte>)
      requires Valid()
      modifies `ring, `response, `returned, `overrun, `heard
      ensures Valid() && failed == Begun(old(response), old(Status())).None?
      ensures failed ==> State() == old(State())
      ensures !failed ==>
        |response.items| > |old(response.items)| + 1
        && response.items[|old(response.items)| + 1] ==
          0x01 * ToInt(old(capture)) + 0x40 * ToInt(old(error)) + 0x80 * ToInt(old(overrun))
      ensures !failed ==>
        && returned == old(returned) + data
        && |data| < 0x1_0000
        && response.items == old(response).items + [CMD_SWO_DATA, old(Status())] + Le16(|data|) + data
        && (|data| < 2 * max || |data| == max == 0)
        && var rounds := CopyRounds(old(State()), Begun(old(response), old(Status())).value, max, 0, arrivals);
          (State(), |data|) == (rounds.0, rounds.2)
    {
      hide Invariant, CopyRounds, Le16, Circ.Items;
      data := [];
      var at := |response.items| + 2;
      failed := BeginData();
      if !failed {
        var count;
        count, data := CopyLoop(max, arrivals);
        CountFilled(old(response).items, old(Status()), data, count);
        response := response.(items := response.items[..at] + Le16(count) + response.items[at + 2..]);
      }
    }
  }

  lemma CountFilled(before: seq<byte>, status: byte, data: seq<byte>, count: nat)
    requires count < 0x1_0000
    ensures var items := before + [CMD_SWO_DATA, status, 0, 0] + data;
      var at := |before| + 2;
      items[..at] + Le16(count) + items[at + 2..] == before + [CMD_SWO_DATA, status] + Le16(count) + data
  {
    hide Le16;
    var items := before + [CMD_SWO_DATA, status, 0, 0] + data;
    assert items[..|before| + 2] == before + [CMD_SWO_DATA, status] && items[|before| + 4..] == data;
  }

  /** The response with SWO_Data begun. */
  function Begun(response: Ring, status: byte): (r: Option<Ring>)
    requires response.Valid()
    ensures r.Some? ==>
      r.value.Valid() && r.value.cap == response.cap && r.value.items == response.items + [CMD_SWO_DATA, status, 0, 0]
  {
    var put := response.Put([CMD_SWO_DATA]);
    if put.None? then None else
    var put2 := put.value.Put([status]);
    if put2.None? then None else put2.value.PutClaimed([0, 0])
  }

  lemma MovedBound(ring: Circ, response: Ring, max: nat)
    requires ring.Valid() && response.Valid()
    ensures Moved(ring, response, max) <= max && Moved(ring, response, max) <= ring.GetRun()
    ensures Moved(ring, response, max) == 0 ==> ring.len == 0 || max == 0 || response.Space() == 0
  {
  }

  lemma RoundsTurn(s: Swo, response: Ring, max: nat, count: nat, arrivals: seq<Arrival>)
    requires s.ring.Valid() && response.Valid()
    ensures var m := Moved(s.ring, response, max);
      m <= s.ring.GetRun() && m <= response.Space() &&
      var (s1, response1) := CopyTurn(s, response, m, arrivals);
      CopyRounds(s, response, max, count, arrivals) ==
        if count + m < max && s1.ring.len > 0 && response1.Space() > 0
        then CopyRounds(s1, response1, max, count + m, if arrivals == [] then [] else arrivals[1..])
        else (s1, response1, count + m)
  {
  }

  lemma InvariantValid(s: Swo)
    requires Invariant(s)
    ensures s.ring.Valid()
  {
  }
}
