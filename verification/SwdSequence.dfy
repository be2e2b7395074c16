/** SWD_Sequence (firmware/src/dap/commands_swd.c): raw bits onto SWDIO or off it. */
module SwdSequence {
  import opened Bits
  import opened RingBuffer
  import opened Status
  import opened SequenceCodec
  import opened DebugPort
  import TransferSpec
  import SwdTarget
  import SwdWire

  const CMD_SWD_SEQUENCE: byte := 0x1d

  /** The target clocked once for each bit the host drives. */
  function Driven(w: World, t: SwdTarget.Target, bits: seq<bool>): (r: SwdTarget.Target)
    decreases |bits|
  {
    if bits == [] then t else SwdTarget.Step(w, Driven(w, t, bits[..|bits| - 1]), bits[|bits| - 1])
  }

  /** The target clocked n times with the line left to it, and the levels of the line before each clock. */
  function Sampled(w: World, t: SwdTarget.Target, n: nat): (r: (SwdTarget.Target, seq<bool>))
    ensures |r.1| == n
  {
    if n == 0 then (t, []) else
    var most := Sampled(w, t, n - 1);
    var line := SwdTarget.Line(most.0, false, false);
    (SwdTarget.Step(w, most.0, line), most.1 + [line])
  }

  lemma {:induction false} DrivenSplit(w: World, t: SwdTarget.Target, a: seq<bool>, b: seq<bool>)
    ensures Driven(w, t, a + b) == Driven(w, Driven(w, t, a), b)
    decreases |b|
  {
    hide SwdTarget.Step;
    if b == [] {
      assert a + b == a;
    } else {
      assert (a + b)[..|a + b| - 1] == a + b[..|b| - 1];
      DrivenSplit(w, t, a, b[..|b| - 1]);
    }
  }

  lemma {:induction false} SampledSplit(w: World, t: SwdTarget.Target, m: nat, n: nat)
    ensures var first := Sampled(w, t, m);
      var second := Sampled(w, first.0, n);
      Sampled(w, t, m + n) == (second.0, first.1 + second.1)
  {
    hide SwdTarget.Step, SwdTarget.Line;
    if n == 0 {
      assert Sampled(w, t, m).1 + [] == Sampled(w, t, m).1;
    } else {
      SampledSplit(w, t, m, n - 1);
      var first := Sampled(w, t, m);
      var most := Sampled(w, first.0, n - 1);
      var line := SwdTarget.Line(most.0, false, false);
      assert first.1 + (most.1 + [line]) == first.1 + most.1 + [line];
    }
  }

  /** One sequence: run on the SWD port; on any other passed over, with as many zero bytes returned. */
  function RunOne(w: World, swd: bool, t: SwdTarget.Target, s: Sequence): (r: (SwdTarget.Target, seq<byte>)) {
    if !swd then (t, Repeat(0, if s.head.capture then s.head.Bytes() else 0))
    else if s.head.capture then
      var run := Sampled(w, t, s.head.cycles);
      (run.0, Pack(run.1))
    else (Driven(w, t, s.Bits()), [])
  }

  function Run(w: World, swd: bool): (f: Runner<SwdTarget.Target>) {
    (t, s) => RunOne(w, swd, t, s)
  }

  /** The bytes a command returns, on whatever port. */
  function Returned(seqs: seq<Sequence>): (n: nat) {
    if seqs == [] then 0 else (if seqs[0].head.capture then seqs[0].head.Bytes() else 0) + Returned(seqs[1..])
  }

  lemma {:induction false} ReturnedBytes(w: World, swd: bool, t: SwdTarget.Target, seqs: seq<Sequence>)
    ensures |RunAll(Run(w, swd), t, seqs).1| == Returned(seqs)
    decreases |seqs|
  {
    hide Driven, Sampled, Pack, Sequence.Bits;
    if seqs != [] {
      assert Run(w, swd)(t, seqs[0]) == RunOne(w, swd, t, seqs[0]);
      ReturnedBytes(w, swd, RunOne(w, swd, t, seqs[0]).0, seqs[1..]);
    }
  }

  /** On another port the target is left alone. */
  lemma {:induction false} PassedOver(w: World, t: SwdTarget.Target, seqs: seq<Sequence>)
    ensures RunAll(Run(w, false), t, seqs).0 == t
    decreases |seqs|
  {
    if seqs != [] {
      assert Run(w, false)(t, seqs[0]).0 == t;
      PassedOver(w, t, seqs[1..]);
    }
  }

  // What that is on the wires, from the bytes of the command.

  /** The target goes through these states, one clock after the other: in a burst that is sent the line has the next bit
      of its data; in one that captures the line is left to the target, and its level before each clock is the next
      bit of the reply. */
  ghost predicate OnWires(w: World, targets: seq<SwdTarget.Target>, bursts: seq<Burst>, reply: seq<byte>)
    decreases |bursts|
  {
    if bursts == [] then |targets| == 1 && reply == [] else
    var b := bursts[0];
    var n, m := b.cycles, if b.capture then (b.cycles + 7) / 8 else 0;
    && |targets| > n && (!b.capture ==> n <= 8 * |b.data|) && m <= |reply|
    && (!b.capture ==> forall k :: 0 <= k < n ==> targets[k + 1] == SwdTarget.Step(w, targets[k], BitOf(b.data, k)))
    && (b.capture ==> forall k :: 0 <= k < n ==>
          targets[k + 1] == SwdTarget.Step(w, targets[k], SwdTarget.Line(targets[k], false, false)))
    && (forall k :: 0 <= k < 8 * m ==> BitOf(reply, k) == (k < n && SwdTarget.Line(targets[k], false, false)))
    && OnWires(w, targets[n..], bursts[1..], reply[m..])
  }

  lemma DrivenAt(w: World, t: SwdTarget.Target, bits: seq<bool>, k: nat)
    requires k < |bits|
    ensures Driven(w, t, bits[..k + 1]) == SwdTarget.Step(w, Driven(w, t, bits[..k]), bits[k])
  {
    assert bits[..k + 1][..k] == bits[..k];
  }

  lemma {:induction false} SampledAt(w: World, t: SwdTarget.Target, n: nat, k: nat)
    requires k < n
    ensures Sampled(w, t, n).1[k] == SwdTarget.Line(Sampled(w, t, k).0, false, false)
    decreases n
  {
    hide SwdTarget.Step, SwdTarget.Line;
    if k < n - 1 {
      SampledAt(w, t, n - 1, k);
    }
  }

  /** The states of one burst. */
  function States(w: World, t: SwdTarget.Target, b: Burst): (targets: seq<SwdTarget.Target>)
    requires b.Proper(false)
    ensures |targets| == b.cycles + 1
  {
    seq(b.cycles + 1, k requires 0 <= k <= b.cycles =>
      if b.capture then Sampled(w, t, k).0 else Driven(w, t, Taken(b).Bits()[..k]))
  }

  lemma BurstOnWires(w: World, t: SwdTarget.Target, b: Burst)
    requires b.Proper(false)
    ensures var targets, reply := States(w, t, b), RunOne(w, true, t, Taken(b)).1;
      && targets[0] == t && targets[b.cycles] == RunOne(w, true, t, Taken(b)).0
      && |reply| == (if b.capture then (b.cycles + 7) / 8 else 0)
      && (!b.capture ==> forall k :: 0 <= k < b.cycles ==>
            targets[k + 1] == SwdTarget.Step(w, targets[k], BitOf(b.data, k)))
      && (b.capture ==> forall k :: 0 <= k < b.cycles ==>
            targets[k + 1] == SwdTarget.Step(w, targets[k], SwdTarget.Line(targets[k], false, false)))
      && (forall k :: 0 <= k < 8 * |reply| ==>
            BitOf(reply, k) == (k < b.cycles && SwdTarget.Line(targets[k], false, false)))
  {
    hide SwdTarget.Step, SwdTarget.Line, BitOf, States, RunOne;
    if b.capture {
      CapturedOnWires(w, t, b);
    } else {
      SentOnWires(w, t, b);
    }
  }

  lemma SentOnWires(w: World, t: SwdTarget.Target, b: Burst)
    requires b.Proper(false) && !b.capture
    ensures var targets, one := States(w, t, b), RunOne(w, true, t, Taken(b));
      && targets[0] == t && targets[b.cycles] == one.0 && one.1 == []
      && forall k :: 0 <= k < b.cycles ==> targets[k + 1] == SwdTarget.Step(w, targets[k], BitOf(b.data, k))
  {
    hide SwdTarget.Step, SwdTarget.Line, Unpack, BitOf;
    var bits := Taken(b).Bits();
    assert bits[..b.cycles] == bits;
    forall k | 0 <= k < b.cycles
      ensures Driven(w, t, bits[..k + 1]) == SwdTarget.Step(w, Driven(w, t, bits[..k]), BitOf(b.data, k))
    {
      DrivenAt(w, t, bits, k);
      UnpackBit(b.data, k);
    }
  }

  lemma CapturedOnWires(w: World, t: SwdTarget.Target, b: Burst)
    requires b.Proper(false) && b.capture
    ensures var targets, one := States(w, t, b), RunOne(w, true, t, Taken(b));
      && targets[0] == t && targets[b.cycles] == one.0 && |one.1| == (b.cycles + 7) / 8
      && (forall k :: 0 <= k < b.cycles ==>
            targets[k + 1] == SwdTarget.Step(w, targets[k], SwdTarget.Line(targets[k], false, false)))
      && (forall k :: 0 <= k < 8 * |one.1| ==>
            BitOf(one.1, k) == (k < b.cycles && SwdTarget.Line(targets[k], false, false)))
  {
    hide SwdTarget.Step, SwdTarget.Line, Pack, Unpack, BitOf, Sampled;
    SampledNone(w, t);
    forall k | 0 <= k < b.cycles
      ensures Sampled(w, t, k + 1).0
        == SwdTarget.Step(w, Sampled(w, t, k).0, SwdTarget.Line(Sampled(w, t, k).0, false, false))
    {
      SampledNext(w, t, k);
    }
    forall k | 0 <= k < 8 * ((b.cycles + 7) / 8)
      ensures BitOf(Pack(Sampled(w, t, b.cycles).1), k)
        == (k < b.cycles && SwdTarget.Line(Sampled(w, t, k).0, false, false))
    {
      CapturedBit(w, t, b.cycles, k);
    }
  }

  lemma SampledNone(w: World, t: SwdTarget.Target)
    ensures Sampled(w, t, 0) == (t, [])
  {
  }

  lemma SampledNext(w: World, t: SwdTarget.Target, k: nat)
    ensures Sampled(w, t, k + 1).0
      == SwdTarget.Step(w, Sampled(w, t, k).0, SwdTarget.Line(Sampled(w, t, k).0, false, false))
  {
    hide SwdTarget.Step, SwdTarget.Line;
  }

  lemma CapturedBit(w: World, t: SwdTarget.Target, n: nat, k: nat)
    requires k < 8 * ((n + 7) / 8)
    ensures BitOf(Pack(Sampled(w, t, n).1), k) == (k < n && SwdTarget.Line(Sampled(w, t, k).0, false, false))
  {
    hide SwdTarget.Step, SwdTarget.Line, Pack, BitOf, Sampled;
    PackBit(Sampled(w, t, n).1, k);
    if k < n {
      SampledAt(w, t, n, k);
    }
  }

  lemma JoinOnWires(w: World, targets: seq<SwdTarget.Target>, bursts: seq<Burst>, first: seq<SwdTarget.Target>,
    later: seq<SwdTarget.Target>, out: seq<byte>, more: seq<byte>)
    requires bursts != [] && bursts[0].Proper(false) && |first| == bursts[0].cycles + 1 && later != []
    requires first[bursts[0].cycles] == later[0] && targets == first[..bursts[0].cycles] + later
    requires var b := bursts[0];
      && |out| == (if b.capture then (b.cycles + 7) / 8 else 0)
      && (!b.capture ==> forall k :: 0 <= k < b.cycles ==>
            first[k + 1] == SwdTarget.Step(w, first[k], BitOf(b.data, k)))
      && (b.capture ==> forall k :: 0 <= k < b.cycles ==>
            first[k + 1] == SwdTarget.Step(w, first[k], SwdTarget.Line(first[k], false, false)))
      && (forall k :: 0 <= k < 8 * |out| ==>
            BitOf(out, k) == (k < b.cycles && SwdTarget.Line(first[k], false, false)))
    requires OnWires(w, later, bursts[1..], more)
    ensures OnWires(w, targets, bursts, out + more)
  {
    hide SwdTarget.Step, SwdTarget.Line;
    var b := bursts[0];
    assert targets[b.cycles..] == later && (out + more)[|out|..] == more;
    assert forall k :: 0 <= k <= b.cycles ==> targets[k] == first[k];
    forall k | 0 <= k < 8 * |out|
      ensures BitOf(out + more, k) == (k < b.cycles && SwdTarget.Line(targets[k], false, false))
    {
      assert (out + more)[k / 8] == out[k / 8] && BitOf(out + more, k) == BitOf(out, k);
    }
  }

  lemma {:induction false} RunOnWires(w: World, t: SwdTarget.Target, bursts: seq<Burst>)
    returns (targets: seq<SwdTarget.Target>)
    requires AllProper(bursts, false)
    ensures var r := RunAll(Run(w, true), t, AllTaken(bursts));
      && OnWires(w, targets, bursts, r.1) && |targets| > 0 && targets[0] == t && targets[|targets| - 1] == r.0
    decreases |bursts|
  {
    hide RunOne, SwdTarget.Step, SwdTarget.Line, BitOf, States;
    if bursts == [] {
      targets := [t];
    } else {
      var b := bursts[0];
      BurstOnWires(w, t, b);
      var first := States(w, t, b);
      var (t1, out) := RunOne(w, true, t, Taken(b));
      assert AllTaken(bursts)[1..] == AllTaken(bursts[1..]);
      var later := RunOnWires(w, t1, bursts[1..]);
      targets := first[..b.cycles] + later;
      JoinOnWires(w, targets, bursts, first, later, out, RunAll(Run(w, true), t1, AllTaken(bursts[1..])).1);
    }
  }

  /** All of SWD_Sequence on the SWD port, as the host writes it. */
  lemma CommandOnWires(w: World, t: SwdTarget.Target, bursts: seq<Burst>, rest: seq<byte>)
    returns (targets: seq<SwdTarget.Target>)
    requires AllProper(bursts, false) && |bursts| < 0x100
    ensures var p := Parse([|bursts|] + Raw(bursts) + rest, false);
      && p.Some? && p.value.1 == rest
      && var r := RunAll(Run(w, true), t, p.value.0);
        OnWires(w, targets, bursts, r.1) && |targets| > 0 && targets[0] == t && targets[|targets| - 1] == r.0
  {
    hide Parse, Raw, OnWires, Run, RunAll;
    RawParsed(bursts, rest, false);
    targets := RunOnWires(w, t, bursts);
  }

  lemma StartSampling(w: World, t: SwdTarget.Target)
    ensures Sampled(w, t, 0) == (t, []) && Pack([]) == [] && ValueOf([]) == 0
  {
  }

  lemma StartDriving(w: World, t: SwdTarget.Target, items: seq<byte>, cycles: nat)
    ensures Driven(w, t, []) == t && FirstBits(items, 0, cycles) == []
  {
  }

  /** One more bit sampled, and its place in the byte being collected from the top. */
  lemma NextSample(w: World, t: SwdTarget.Target, k: nat)
    requires k < 8
    ensures var r, n := Sampled(w, t, k), Sampled(w, t, k + 1);
      var line := SwdTarget.Line(r.0, false, false);
      && n.0 == SwdTarget.Step(w, r.0, line)
      && ValueOf(n.1) * Pow2(7 - k) == ValueOf(r.1) * Pow2(8 - k) / 2 + ToInt(line) * 0x80
  {
    hide Pow2, ValueOf, SwdTarget.Step, SwdTarget.Line;
    var r := Sampled(w, t, k);
    var line := SwdTarget.Line(r.0, false, false);
    ValueOfSnoc(r.1, line);
    HalfPlus(ValueOf(r.1), k, line);
  }

  /** One more byte sampled. */
  lemma NextSampledByte(w: World, t: SwdTarget.Target, cycles: nat, j: nat, n: nat)
    requires 8 * j < cycles && n == Min(8, cycles - 8 * j)
    ensures var r := Sampled(w, t, 8 * j);
      var byte := Sampled(w, r.0, n);
      var all := Sampled(w, t, 8 * j + n);
      all.0 == byte.0 && Pack(all.1) == Pack(r.1) + [ByteOf(byte.1)]
  {
    hide Sampled, ByteOf;
    SampledSplit(w, t, 8 * j, n);
    var r := Sampled(w, t, 8 * j);
    var out := Sampled(w, r.0, n).1;
    PackAppend(r.1, out);
    assert out[..n] == out && Pack(out[n..]) == [];
  }

  /** One more byte driven. */
  lemma NextDrivenByte(w: World, t: SwdTarget.Target, items: seq<byte>, cycles: nat, j: nat, n: nat)
    requires j < |items| && 8 * j < cycles && n == Min(8, cycles - 8 * j)
    ensures Driven(w, t, FirstBits(items, j + 1, cycles))
      == Driven(w, Driven(w, t, FirstBits(items, j, cycles)), BitsOf(items[j], n))
  {
    hide Driven;
    NextBits(items, cycles, j, n);
    DrivenSplit(w, t, FirstBits(items, j, cycles), BitsOf(items[j], n));
  }

  class SequencePort {
    const swd: SwdWire.SwdPort
    var port: TransferSpec.Port
    var request: Ring
    var response: Ring

    constructor (swd: SwdWire.SwdPort, cap: nat)
      requires cap > 0
      ensures this.swd == swd && port == TransferSpec.Disabled
      ensures request == response == Ring(cap, 0, [])
    {
      this.swd, port := swd, TransferSpec.Disabled;
      request, response := Ring(cap, 0, []), Ring(cap, 0, []);
    }

    ghost predicate Valid()
      reads this
    {
      request.Valid() && response.Valid()
    }

    /** Up to eight bits in, at the low end of the byte. */
    method SampleByte(n: nat) returns (b: byte)
      requires 1 <= n <= 8 && !swd.output
      modifies swd`swclk, swd`target, swd`clocks, swd`contention
      ensures var r := Sampled(swd.world, old(swd.target), n); swd.target == r.0 && b == ByteOf(r.1)
    {
      hide Pow2, ValueOf, Sampled, SwdTarget.Step;
      var acc := 0;
      ghost var w, start := swd.world, swd.target;
      StartSampling(w, start);
      var k := 0;
      while k < n
        invariant 0 <= k <= n
        invariant swd.target == Sampled(w, start, k).0
        invariant acc == ValueOf(Sampled(w, start, k).1) * Pow2(8 - k)
      {
        NextSample(w, start, k);
        var bit := swd.ReadCycle();
        acc := acc / 2 + bit * 0x80;
        k := k + 1;
      }
      ShiftedBack(ValueOf(Sampled(w, start, n).1), 8 - n);
      ByteIsValue(Sampled(w, start, n).1);
      b := ShiftRight(acc, 8 - n);
    }

    /** Up to eight bits out. */
    method DriveByte(b0: byte, n: nat)
      requires 1 <= n <= 8 && swd.output
      modifies swd`swclk, swd`swdio, swd`target, swd`clocks, swd`contention
      ensures swd.target == Driven(swd.world, old(swd.target), BitsOf(b0, n))
    {
      hide BitsOf, SwdTarget.Step;
      var b: nat := b0;
      ghost var bits := BitsOf(b0, n);
      ghost var w, start := swd.world, swd.target;
      var k := 0;
      while k < n
        invariant 0 <= k <= n && bits[k..] == BitsOf(b, n - k)
        invariant swd.target == Driven(w, start, bits[..k])
      {
        BitsStep(b, n - k - 1);
        assert bits[k] == bits[k..][0] && bits[k + 1..] == bits[k..][1..];
        assert bits[..k + 1][..k] == bits[..k];
        swd.WriteCycle(b);
        b := b / 2;
        k := k + 1;
      }
      assert bits[..n] == bits;
    }

    /** The bits of a sequence that captures. */
    method SampleSequence(s: Head) returns (error: Option<Error>)
      requires Valid() && !swd.output
      modifies `response, swd`swclk, swd`target, swd`clocks, swd`contention
      ensures Valid() && response.cap == old(response.cap)
      ensures error == None <==> Fits(old(response), s.Bytes())
      ensures error == None ==>
        var r := Sampled(swd.world, old(swd.target), s.cycles);
        swd.target == r.0 && response.items == old(response.items) + Pack(r.1)
    {
      hide Sampled, Pack, ByteOf;
      var left := s.cycles;
      ghost var j, w, start, sent := 0, swd.world, swd.target, response.items;
      StartSampling(w, start);
      while left > 0
        invariant Valid() && response.cap == old(response.cap) && 0 <= left <= s.cycles
        invariant j == s.Bytes() - (left + 7) / 8 && |response.items| == |sent| + j
        invariant left > 0 ==> 8 * j == s.cycles - left
        invariant var r := Sampled(w, start, s.cycles - left);
          swd.target == r.0 && response.items == sent + Pack(r.1)
      {
        var n := Min(8, left);
        NextSampledByte(w, start, s.cycles, j, n);
        var b := SampleByte(n);
        left := left - n;
        j := j + 1;
        var put := response.Put([b]);
        if put.None? {
          return Some(NoBufs);
        }
        response := put.value;
      }
      error := None;
    }

    /** The bits of a sequence that is sent. */
    method DriveSequence(s: Head) returns (error: Option<Error>)
      requires Valid() && swd.output
      modifies `request, swd`swclk, swd`swdio, swd`target, swd`clocks, swd`contention
      ensures Valid() && error == (if |old(request.items)| >= s.Bytes() then None else Some(MsgSize))
      ensures error == None ==> request.items == old(request.items)[s.Bytes()..]
      ensures error == None ==>
        swd.target == Driven(swd.world, old(swd.target), Unpack(old(request.items)[..s.Bytes()])[..s.cycles])
    {
      hide Driven, Unpack, BitsOf;
      var left := s.cycles;
      ghost var j, w, start, items := 0, swd.world, swd.target, request.items;
      StartDriving(w, start, items, s.cycles);
      while left > 0
        invariant Valid() && 0 <= left <= s.cycles
        invariant j == s.Bytes() - (left + 7) / 8 && j <= |items| && request.items == items[j..]
        invariant left > 0 ==> 8 * j == s.cycles - left
        invariant swd.target == Driven(w, start, FirstBits(items, j, s.cycles))
      {
        var got := request.Get(1);
        if got.None? {
          return Some(MsgSize);
        }
        assert got.value.0 == [items[j]] && items[j..][1..] == items[j + 1..];
        request := got.value.1;
        var n := Min(8, left);
        NextDrivenByte(w, start, items, s.cycles, j, n);
        DriveByte(got.value.0[0], n);
        left := left - n;
        j := j + 1;
      }
      error := None;
    }

    /** One sequence while another port is selected: the bytes it would take or return. */
    method SkipSequence(s: Head) returns (error: Option<Error>)
      requires Valid()
      modifies `request, `response
      ensures Valid() && response.cap == old(response.cap)
      ensures error == None <==> if s.capture then Fits(old(response), s.Bytes()) else |old(request.items)| >= s.Bytes()
      ensures error == None && !s.capture ==>
        request.items == old(request.items)[s.Bytes()..] && response.items == old(response.items)
      ensures error == None && s.capture ==>
        request.items == old(request.items) && response.items == old(response.items) + Repeat(0, s.Bytes())
    {
      ghost var items, sent := request.items, response.items;
      for j := 0 to s.Bytes()
        invariant Valid() && response.cap == old(response.cap)
        invariant if s.capture then request.items == items && response.items == sent + Repeat(0, j)
          else j <= |items| && request.items == items[j..] && response.items == sent
      {
        if s.capture {
          var put := response.Put([0]);
          if put.None? {
            return Some(NoBufs);
          }
          response := put.value;
          assert Repeat(0, j) + [0] == Repeat(0, j + 1);
        } else {
          var got := request.Get(1);
          if got.None? {
            return Some(MsgSize);
          }
          assert items[j..][1..] == items[j + 1..];
          request := got.value.1;
        }
      }
      error := None;
    }

    /** One sequence: its first byte, then its bits. */
    method HandleSequence() returns (error: Option<Error>)
      requires Valid()
      modifies `request, `response, swd`output, swd`swclk, swd`swdio, swd`target, swd`clocks, swd`contention
      ensures Valid() && response.cap == old(response.cap)
      ensures !port.Swd? ==> swd.output == old(swd.output)
      ensures var one := One(old(request.items), false);
        if one.None? then error != None else
          var (target, returned) := Run(swd.world, port.Swd?)(old(swd.target), one.value.0);
          && (error == None <==> Fits(old(response), |returned|))
          && (error == None ==>
            && request.items == one.value.1 && swd.target == target
            && response.items == old(response.items) + returned)
    {
      hide Driven, Sampled, Pack, Unpack;
      var got := request.Get(1);
      if got.None? {
        return Some(MsgSize);
      }
      ghost var items := request.items;
      request := got.value.1;
      var head := HeadOf(got.value.0[0]);
      if |items| - 1 >= head.Bytes() {
        assert items[1..][..head.Bytes()] == items[1..1 + head.Bytes()];
        assert items[1..][head.Bytes()..] == items[1 + head.Bytes()..];
      }
      if !port.Swd? {
        error := SkipSequence(head);
      } else if head.capture {
        swd.output := false;
        error := SampleSequence(head);
      } else {
        swd.output := true;
        error := DriveSequence(head);
      }
    }

    /** The loop over the sequences. */
    method HandleSequences(count: byte) returns (error: Option<Error>, status: byte)
      requires Valid()
      modifies `request, `response, swd`output, swd`swclk, swd`swdio, swd`target, swd`clocks, swd`contention
      ensures Valid() && response.cap == old(response.cap)
      ensures !port.Swd? ==> swd.output == old(swd.output)
      ensures error == None ==> status == if port.Swd? || count == 0 then RESPONSE_OK else RESPONSE_ERROR
      ensures var r := Split(old(request.items), count, false);
        if r.None? then error != None else
          var (target, returned) := RunAll(Run(swd.world, port.Swd?), old(swd.target), r.value.0);
          && (error == None <==> Fits(old(response), |returned|))
          && (error == None ==>
            && request.items == r.value.1 && swd.target == target
            && response.items == old(response.items) + returned)
    {
      hide RunAll, Split, One, Run;
      status := RESPONSE_OK;
      var left := count;
      ghost var f, start := Run(swd.world, port.Swd?), swd.target;
      ghost var r, head := Split(request.items, count, false), response.items;
      ghost var returned: seq<byte> := [];
      AheadStart(f, start, r);
      while left > 0
        invariant Valid() && response.cap == old(response.cap) && 0 <= left <= count
        invariant !port.Swd? ==> swd.output == old(swd.output)
        invariant status == if port.Swd? || left == count then RESPONSE_OK else RESPONSE_ERROR
        invariant response.items == head + returned
        invariant Ahead(f, start, swd.target, r, Split(request.items, left, false), returned)
      {
        if !port.Swd? {
          status := RESPONSE_ERROR;
        }
        ghost var items, t := request.items, swd.target;
        AheadStep(f, start, t, r, items, left, false, returned);
        error := HandleSequence();
        if error.Some? {
          return;
        }
        returned := returned + f(t, One(items, false).value.0).1;
        left := left - 1;
      }
      AheadEnd(f, start, swd.target, r, request.items, false, returned);
      error := None;
    }

    /** dap_handle_cmd_swd_sequence. The bytes it takes and the length of what it returns depend on nothing but those
        bytes. A command without any sequence succeeds on every port, and so makes SWDIO an output on every port. */
    method HandleSwdSequence() returns (error: Option<Error>)
      requires Valid()
      modifies `request, `response, swd`output, swd`swclk, swd`swdio, swd`target, swd`clocks, swd`contention
      ensures Valid() && response.cap == old(response.cap)
      ensures var r := Parse(old(request.items), false);
        if r.None? then error != None else
          var (target, returned) := RunAll(Run(swd.world, port.Swd?), old(swd.target), r.value.0);
          && (error == None <==> Fits(old(response), 2 + Returned(r.value.0)))
          && (error == None ==>
            && request.items == r.value.1 && swd.target == target
            && swd.output == (if port.Swd? || |r.value.0| == 0 then true else old(swd.output))
            && response.items == old(response.items)
              + [CMD_SWD_SEQUENCE, if port.Swd? || |r.value.0| == 0 then RESPONSE_OK else RESPONSE_ERROR] + returned)
    {
      hide RunAll, Split, Run, Returned;
      var put := response.Put([CMD_SWD_SEQUENCE]);
      if put.None? {
        return Some(NoBufs);
      }
      response := put.value;
      put := response.PutClaimed([0]);
      if put.None? {
        return Some(NoBufs);
      }
      var at := |response.items|;
      response := put.value;
      var got := request.Get(1);
      if got.None? {
        return Some(MsgSize);
      }
      request := got.value.1;
      ghost var r := Split(request.items, got.value.0[0], false);
      if r.Some? {
        ReturnedBytes(swd.world, port.Swd?, swd.target, r.value.0);
      }
      var status;
      error, status := HandleSequences(got.value.0[0]);
      if error.None? {
        if status == RESPONSE_OK {
          swd.output := true;
        }
        response := response.(items := response.items[at := status]);
      }
    }
  }
}
