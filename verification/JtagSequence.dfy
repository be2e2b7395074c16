/** JTAG_Sequence (firmware/src/dap/commands_jtag.c): raw bits to TDI and from TDO, at any level of TMS. */
module JtagSequence {
  import opened Bits
  import opened RingBuffer
  import opened Status
  import opened SequenceCodec
  import opened DebugPort
  import TransferSpec
  import TapChain
  import JtagWire

  const CMD_JTAG_SEQUENCE: byte := 0x14
  const CMD_SWJ_SEQUENCE: byte := 0x12

  /** The chain clocked once for each bit, with what TDO shows before each clock. */
  function Clocked(w: World, c: TapChain.Chain, tms: bool, bits: seq<bool>): (r: (TapChain.Chain, seq<bool>))
    ensures |r.1| == |bits|
    decreases |bits|
  {
    if bits == [] then (c, []) else
    var most := Clocked(w, c, tms, bits[..|bits| - 1]);
    (TapChain.Step(w, most.0, tms, bits[|bits| - 1]), most.1 + [TapChain.Tdo(most.0)])
  }

  lemma {:induction false} ClockedSplit(w: World, c: TapChain.Chain, tms: bool, a: seq<bool>, b: seq<bool>)
    ensures var first := Clocked(w, c, tms, a);
      var second := Clocked(w, first.0, tms, b);
      Clocked(w, c, tms, a + b) == (second.0, first.1 + second.1)
    decreases |b|
  {
    hide TapChain.Step, TapChain.Tdo;
    if b == [] {
      assert a + b == a;
      assert Clocked(w, c, tms, a).1 + [] == Clocked(w, c, tms, a).1;
    } else {
      var d := b[..|b| - 1];
      assert (a + b)[..|a + b| - 1] == a + d && (a + b)[|a + b| - 1] == b[|b| - 1];
      ClockedSplit(w, c, tms, a, d);
      var first := Clocked(w, c, tms, a);
      var most := Clocked(w, first.0, tms, d);
      assert first.1 + (most.1 + [TapChain.Tdo(most.0)]) == first.1 + most.1 + [TapChain.Tdo(most.0)];
    }
  }

  /** One sequence: run on the JTAG port, passed over on any other. */
  function RunOne(w: World, jtag: bool, c: TapChain.Chain, s: Sequence): (r: (TapChain.Chain, seq<byte>)) {
    var run := Clocked(w, c, s.head.tms, s.Bits());
    if jtag then (run.0, if s.head.capture then Pack(run.1) else []) else (c, [])
  }

  function Run(w: World, jtag: bool): (f: Runner<TapChain.Chain>) {
    (c, s) => RunOne(w, jtag, c, s)
  }

  /** On another port nothing moves and nothing is captured. */
  lemma {:induction false} PassedOver(w: World, c: TapChain.Chain, seqs: seq<Sequence>)
    ensures RunAll(Run(w, false), c, seqs) == (c, [])
    decreases |seqs|
  {
    if seqs != [] {
      var first := Run(w, false)(c, seqs[0]);
      assert first.0 == c && first.1 == [];
      PassedOver(w, c, seqs[1..]);
      assert first.1 + RunAll(Run(w, false), c, seqs[1..]).1 == [];
    }
  }

  /** The bytes a command returns on the JTAG port. */
  function Captured(seqs: seq<Sequence>): (n: nat) {
    if seqs == [] then 0 else (if seqs[0].head.capture then |seqs[0].data| else 0) + Captured(seqs[1..])
  }

  lemma {:induction false} CapturedBytes(w: World, c: TapChain.Chain, seqs: seq<Sequence>)
    requires forall s <- seqs :: |s.data| == Carried(s.head, true)
    ensures |RunAll(Run(w, true), c, seqs).1| == Captured(seqs)
    decreases |seqs|
  {
    hide Clocked, Pack, Unpack;
    if seqs != [] {
      CapturedBytes(w, RunOne(w, true, c, seqs[0]).0, seqs[1..]);
    }
  }

  // What that is on the wires, from the bytes of the command.

  /** The chain goes through these states, one clock after the other: in each burst TMS is its level and TDI the next
      bit of its data, and what TDO shows before each clock is the next bit of the reply if the burst captures. */
  ghost predicate OnWires(w: World, chains: seq<TapChain.Chain>, bursts: seq<Burst>, reply: seq<byte>)
    decreases |bursts|
  {
    if bursts == [] then |chains| == 1 && reply == [] else
    var b := bursts[0];
    var n, m := b.cycles, if b.capture then (b.cycles + 7) / 8 else 0;
    && |chains| > n && n <= 8 * |b.data| && m <= |reply|
    && (forall k :: 0 <= k < n ==> chains[k + 1] == TapChain.Step(w, chains[k], b.tms, BitOf(b.data, k)))
    && (forall k :: 0 <= k < 8 * m ==> BitOf(reply, k) == (k < n && TapChain.Tdo(chains[k])))
    && OnWires(w, chains[n..], bursts[1..], reply[m..])
  }

  lemma {:induction false} ClockedAt(w: World, c: TapChain.Chain, tms: bool, bits: seq<bool>, k: nat)
    requires k < |bits|
    ensures Clocked(w, c, tms, bits[..k + 1]).0 == TapChain.Step(w, Clocked(w, c, tms, bits[..k]).0, tms, bits[k])
    ensures Clocked(w, c, tms, bits).1[k] == TapChain.Tdo(Clocked(w, c, tms, bits[..k]).0)
    decreases |bits|
  {
    hide TapChain.Step, TapChain.Tdo;
    assert bits[..k + 1][..k] == bits[..k];
    var most := bits[..|bits| - 1];
    if k < |most| {
      ClockedAt(w, c, tms, most, k);
      assert most[..k] == bits[..k];
    }
  }

  /** The states of one burst. */
  function States(w: World, c: TapChain.Chain, tms: bool, bits: seq<bool>): (chains: seq<TapChain.Chain>)
    ensures |chains| == |bits| + 1
  {
    seq(|bits| + 1, k requires 0 <= k <= |bits| => Clocked(w, c, tms, bits[..k]).0)
  }

  lemma BurstOnWires(w: World, c: TapChain.Chain, b: Burst)
    requires b.Proper(true)
    ensures var bits := Taken(b).Bits();
      var chains, reply := States(w, c, b.tms, bits), RunOne(w, true, c, Taken(b)).1;
      && |bits| == b.cycles && chains[0] == c && chains[b.cycles] == RunOne(w, true, c, Taken(b)).0
      && |reply| == (if b.capture then (b.cycles + 7) / 8 else 0)
      && (forall k :: 0 <= k < b.cycles ==> chains[k + 1] == TapChain.Step(w, chains[k], b.tms, BitOf(b.data, k)))
      && (forall k :: 0 <= k < 8 * |reply| ==> BitOf(reply, k) == (k < b.cycles && TapChain.Tdo(chains[k])))
  {
    hide TapChain.Step, TapChain.Tdo, Pack, Unpack, BitOf;
    var bits := Taken(b).Bits();
    var chains, reply := States(w, c, b.tms, bits), RunOne(w, true, c, Taken(b)).1;
    assert bits[..b.cycles] == bits;
    forall k | 0 <= k < b.cycles
      ensures chains[k + 1] == TapChain.Step(w, chains[k], b.tms, BitOf(b.data, k))
    {
      ClockedAt(w, c, b.tms, bits, k);
      UnpackBit(b.data, k);
    }
    forall k | 0 <= k < 8 * |reply|
      ensures BitOf(reply, k) == (k < b.cycles && TapChain.Tdo(chains[k]))
    {
      PackBit(Clocked(w, c, b.tms, bits).1, k);
      if k < b.cycles {
        ClockedAt(w, c, b.tms, bits, k);
      }
    }
  }

  lemma {:induction false} RunOnWires(w: World, c: TapChain.Chain, bursts: seq<Burst>)
    returns (chains: seq<TapChain.Chain>)
    requires AllProper(bursts, true)
    ensures var r := RunAll(Run(w, true), c, AllTaken(bursts));
      && OnWires(w, chains, bursts, r.1) && |chains| > 0 && chains[0] == c && chains[|chains| - 1] == r.0
    decreases |bursts|
  {
    hide RunOne, TapChain.Step, TapChain.Tdo, BitOf, States;
    if bursts == [] {
      chains := [c];
    } else {
      var b := bursts[0];
      BurstOnWires(w, c, b);
      var first := States(w, c, b.tms, Taken(b).Bits());
      var (c1, out) := RunOne(w, true, c, Taken(b));
      assert AllTaken(bursts)[1..] == AllTaken(bursts[1..]);
      var later := RunOnWires(w, c1, bursts[1..]);
      chains := first[..b.cycles] + later;
      assert chains[b.cycles..] == later;
      var more := RunAll(Run(w, true), c1, AllTaken(bursts[1..])).1;
      JoinOnWires(w, chains, bursts, first, later, out, more);
    }
  }

  lemma JoinOnWires(w: World, chains: seq<TapChain.Chain>, bursts: seq<Burst>, first: seq<TapChain.Chain>,
    later: seq<TapChain.Chain>, out: seq<byte>, more: seq<byte>)
    requires bursts != [] && bursts[0].Proper(true) && |first| == bursts[0].cycles + 1 && later != []
    requires first[bursts[0].cycles] == later[0] && chains == first[..bursts[0].cycles] + later
    requires var b := bursts[0];
      && |out| == (if b.capture then (b.cycles + 7) / 8 else 0)
      && (forall k :: 0 <= k < b.cycles ==> first[k + 1] == TapChain.Step(w, first[k], b.tms, BitOf(b.data, k)))
      && (forall k :: 0 <= k < 8 * |out| ==> BitOf(out, k) == (k < b.cycles && TapChain.Tdo(first[k])))
    requires OnWires(w, later, bursts[1..], more)
    ensures OnWires(w, chains, bursts, out + more)
  {
    hide TapChain.Step, TapChain.Tdo;
    var b := bursts[0];
    assert chains[b.cycles..] == later && (out + more)[|out|..] == more;
    forall k | 0 <= k < b.cycles
      ensures chains[k + 1] == TapChain.Step(w, chains[k], b.tms, BitOf(b.data, k))
    {
      assert chains[k] == first[k] && chains[k + 1] == first[k + 1];
    }
    forall k | 0 <= k < 8 * |out|
      ensures BitOf(out + more, k) == (k < b.cycles && TapChain.Tdo(chains[k]))
    {
      assert (out + more)[k / 8] == out[k / 8] && BitOf(out + more, k) == BitOf(out, k);
      if k < b.cycles {
        assert chains[k] == first[k];
      }
    }
  }

  /** All of JTAG_Sequence on the JTAG port, as the host writes it. */
  lemma CommandOnWires(w: World, c: TapChain.Chain, bursts: seq<Burst>, rest: seq<byte>)
    returns (chains: seq<TapChain.Chain>)
    requires AllProper(bursts, true) && |bursts| < 0x100
    ensures var p := Parse([|bursts|] + Raw(bursts) + rest, true);
      && p.Some? && p.value.1 == rest
      && var r := RunAll(Run(w, true), c, p.value.0);
        OnWires(w, chains, bursts, r.1) && |chains| > 0 && chains[0] == c && chains[|chains| - 1] == r.0
  {
    hide Parse, Raw, OnWires, Run, RunAll;
    RawParsed(bursts, rest, true);
    chains := RunOnWires(w, c, bursts);
  }

  /** Its TMS moves all TAPs at every clock; so a last burst of five clocks or more with TMS high resets them. */
  lemma {:induction false} HighBurstResets(w: World, c: TapChain.Chain, bursts: seq<Burst>, rest: seq<byte>)
    requires AllProper(bursts, true) && |bursts| < 0x100
    requires bursts != [] && bursts[|bursts| - 1].tms && bursts[|bursts| - 1].cycles >= 5
    ensures var p := Parse([|bursts|] + Raw(bursts) + rest, true);
      p.Some? && RunAll(Run(w, true), c, p.value.0).0.state == TapChain.TestLogicReset
  {
    hide Parse, Raw, OnWires, Run, RunAll;
    var chains := CommandOnWires(w, c, bursts, rest);
    LastBurst(w, chains, bursts, RunAll(Run(w, true), c, Parse([|bursts|] + Raw(bursts) + rest, true).value.0).1);
  }

  lemma {:induction false} LastBurst(w: World, chains: seq<TapChain.Chain>, bursts: seq<Burst>, reply: seq<byte>)
    requires OnWires(w, chains, bursts, reply) && bursts != []
    requires bursts[|bursts| - 1].tms && bursts[|bursts| - 1].cycles >= 5
    ensures |chains| > 0 && chains[|chains| - 1].state == TapChain.TestLogicReset
    decreases |bursts|
  {
    hide TapChain.Tdo, BitOf;
    var b := bursts[0];
    var m := if b.capture then (b.cycles + 7) / 8 else 0;
    if |bursts| == 1 {
      assert OnWires(w, chains[b.cycles..], [], reply[m..]) by { assert bursts[1..] == []; }
      assert |chains[b.cycles..]| == 1;
      StepsHigh(w, chains, b);
    } else {
      LastBurst(w, chains[b.cycles..], bursts[1..], reply[m..]);
    }
  }

  lemma StepsHigh(w: World, chains: seq<TapChain.Chain>, b: Burst)
    requires |chains| > b.cycles >= 5 && b.cycles <= 8 * |b.data| && b.tms
    requires forall k :: 0 <= k < b.cycles ==> chains[k + 1] == TapChain.Step(w, chains[k], b.tms, BitOf(b.data, k))
    ensures chains[b.cycles].state == TapChain.TestLogicReset
  {
    hide BitOf, TapChain.Step;
    var n := b.cycles - 5;
    StepHigh(w, chains[n], BitOf(b.data, n));
    StepHigh(w, chains[n + 1], BitOf(b.data, n + 1));
    StepHigh(w, chains[n + 2], BitOf(b.data, n + 2));
    StepHigh(w, chains[n + 3], BitOf(b.data, n + 3));
    StepHigh(w, chains[n + 4], BitOf(b.data, n + 4));
  }

  lemma StepHigh(w: World, c: TapChain.Chain, tdi: bool)
    ensures TapChain.Step(w, c, true, tdi).state == TapChain.NextState(c.state, true)
  {
  }

  lemma StartSequence(w: World, c: TapChain.Chain, tms: bool, items: seq<byte>, cycles: nat)
    ensures Clocked(w, c, tms, FirstBits(items, 0, cycles)) == (c, []) && Pack([]) == []
  {
  }

  /** The next byte of a sequence, both ways. */
  lemma NextByte(w: World, c: TapChain.Chain, tms: bool, items: seq<byte>, cycles: nat, j: nat, n: nat)
    requires j < |items| && 8 * j < cycles && n == Min(8, cycles - 8 * j)
    ensures var r := Clocked(w, c, tms, FirstBits(items, j, cycles));
      var byte := Clocked(w, r.0, tms, BitsOf(items[j], n));
      var all := Clocked(w, c, tms, FirstBits(items, j + 1, cycles));
      all.0 == byte.0 && Pack(all.1) == Pack(r.1) + [ByteOf(byte.1)]
  {
    hide BitsOf, Clocked, Unpack, ByteOf;
    NextBits(items, cycles, j, n);
    var bits := BitsOf(items[j], n);
    var first := FirstBits(items, j, cycles);
    ClockedSplit(w, c, tms, first, bits);
    var r := Clocked(w, c, tms, first);
    var out := Clocked(w, r.0, tms, bits).1;
    PackAppend(r.1, out);
    assert out[..n] == out && Pack(out[n..]) == [];
  }

  lemma NoBits(w: World, c: TapChain.Chain, tms: bool)
    ensures Clocked(w, c, tms, []) == (c, []) && ValueOf([]) == 0
  {
  }

  lemma StartTms(w: World, c: TapChain.Chain, tdi: bool, items: seq<byte>)
    ensures Holds(items, 0, 0) && Moved(w, c, tdi, Unpack(items[..0])[..0]) == c
  {
  }

  /** One more bit, and its place in the byte being collected from the top. */
  lemma NextBit(w: World, c: TapChain.Chain, tms: bool, bits: seq<bool>, k: nat)
    requires k < |bits| <= 8
    ensures var r, n := Clocked(w, c, tms, bits[..k]), Clocked(w, c, tms, bits[..k + 1]);
      && n.0 == TapChain.Step(w, r.0, tms, bits[k])
      && ValueOf(n.1) * Pow2(7 - k) == ValueOf(r.1) * Pow2(8 - k) / 2 + ToInt(TapChain.Tdo(r.0)) * 0x80
  {
    hide Pow2, ValueOf, TapChain.Step, TapChain.Tdo;
    assert bits[..k + 1][..k] == bits[..k];
    var r := Clocked(w, c, tms, bits[..k]);
    ValueOfSnoc(r.1, TapChain.Tdo(r.0));
    HalfPlus(ValueOf(r.1), k, TapChain.Tdo(r.0));
  }

  /** The chain clocked once for each bit on TMS, with TDI held. */
  function Moved(w: World, c: TapChain.Chain, tdi: bool, bits: seq<bool>): (r: TapChain.Chain)
    decreases |bits|
  {
    if bits == [] then c else TapChain.Step(w, Moved(w, c, tdi, bits[..|bits| - 1]), bits[|bits| - 1], tdi)
  }

  /** SWJ_Sequence on the wires: the chain goes through these states, TMS being the next bit of the bytes at each
      clock. */
  lemma TmsOnWires(w: World, c: TapChain.Chain, tdi: bool, data: seq<byte>, count: nat)
    returns (chains: seq<TapChain.Chain>)
    requires count <= 8 * |data|
    ensures |chains| == count + 1 && chains[0] == c && chains[count] == Moved(w, c, tdi, Unpack(data)[..count])
    ensures forall k :: 0 <= k < count ==> chains[k + 1] == TapChain.Step(w, chains[k], BitOf(data, k), tdi)
  {
    hide TapChain.Step, BitOf, Unpack;
    var bits := Unpack(data)[..count];
    chains := seq(count + 1, k requires 0 <= k <= count => Moved(w, c, tdi, bits[..k]));
    assert bits[..count] == bits;
    forall k | 0 <= k < count
      ensures chains[k + 1] == TapChain.Step(w, chains[k], BitOf(data, k), tdi)
    {
      assert bits[..k + 1][..k] == bits[..k];
      UnpackBit(data, k);
    }
  }

  /** Wherever the TAPs are, a sequence that ends with five ones resets them. */
  lemma {:induction false} FiveOnesReset(w: World, c: TapChain.Chain, tdi: bool, bits: seq<bool>)
    requires |bits| >= 5 && forall i :: |bits| - 5 <= i < |bits| ==> bits[i]
    ensures Moved(w, c, tdi, bits).state == TapChain.TestLogicReset
  {
    hide Moved;
    var n := |bits|;
    NextTms(w, c, tdi, bits, n - 5);
    NextTms(w, c, tdi, bits, n - 4);
    NextTms(w, c, tdi, bits, n - 3);
    NextTms(w, c, tdi, bits, n - 2);
    NextTms(w, c, tdi, bits, n - 1);
    assert bits[..n] == bits;
  }

  lemma NextTms(w: World, c: TapChain.Chain, tdi: bool, bits: seq<bool>, k: nat)
    requires k < |bits|
    ensures Moved(w, c, tdi, bits[..k + 1]).state == TapChain.NextState(Moved(w, c, tdi, bits[..k]).state, bits[k])
  {
    assert bits[..k + 1][..k] == bits[..k];
  }

  /** The byte before which TMS bit i falls, and the bits of it still to come. */
  ghost predicate Holds(items: seq<byte>, i: nat, b: nat) {
    && (i + 7) / 8 <= |items|
    && Unpack(items[..(i + 7) / 8])[i..] == BitsOf(b, 8 * ((i + 7) / 8) - i)
  }

  lemma TmsStep(items: seq<byte>, i: nat, b: nat, n: nat)
    requires n == i / 8 + 1 <= |items| && Unpack(items[..n])[i..] == BitsOf(b, 8 * n - i)
    ensures Unpack(items[..n])[i] == (b % 2 == 1) && Holds(items, i + 1, b / 2) && (i + 8) / 8 == n
  {
    hide Unpack, BitsOf;
    BitsStep(b, 8 * n - i - 1);
    var bits := Unpack(items[..n]);
    assert bits[i] == bits[i..][0] && bits[i + 1..] == bits[i..][1..];
    assert (i + 8) / 8 == n;
  }

  lemma NextTmsByte(items: seq<byte>, i: nat)
    requires i % 8 == 0 && i / 8 < |items|
    ensures Unpack(items[..i / 8 + 1])[i..] == BitsOf(items[i / 8], 8)
    ensures Unpack(items[..i / 8 + 1])[..i] == Unpack(items[..i / 8])[..i]
  {
    hide BitsOf, Unpack;
    UnpackAt(items[..i / 8 + 1], i / 8, 8);
    UnpackPrefix(items, i / 8);
  }

  class SequencePort {
    const jtag: JtagWire.JtagPort
    var port: TransferSpec.Port
    var request: Ring
    var response: Ring

    constructor (jtag: JtagWire.JtagPort, cap: nat)
      requires cap > 0
      ensures this.jtag == jtag && port == TransferSpec.Disabled
      ensures request == response == Ring(cap, 0, [])
    {
      this.jtag, port := jtag, TransferSpec.Disabled;
      request, response := Ring(cap, 0, []), Ring(cap, 0, []);
    }

    ghost predicate Valid()
      reads this
    {
      request.Valid() && response.Valid()
    }

    /** Up to eight bits out, as many in, the latter at the low end of tdo. */
    method ShiftByte(tdi0: byte, n: nat) returns (tdo: byte)
      requires 1 <= n <= 8
      modifies jtag`tck, jtag`tdi, jtag`chain, jtag`clocks
      ensures var r := Clocked(jtag.world, old(jtag.chain), jtag.tms, BitsOf(tdi0, n));
        jtag.chain == r.0 && tdo == ByteOf(r.1)
    {
      hide Pow2, ValueOf, BitsOf, Clocked, TapChain.Step, TapChain.Tdo;
      var tdi, acc: nat := tdi0, 0;
      ghost var bits := BitsOf(tdi0, n);
      ghost var w, start, tms := jtag.world, jtag.chain, jtag.tms;
      NoBits(w, start, tms);
      var k := 0;
      while k < n
        invariant 0 <= k <= n && bits[k..] == BitsOf(tdi, n - k)
        invariant jtag.chain == Clocked(w, start, tms, bits[..k]).0
        invariant acc == ValueOf(Clocked(w, start, tms, bits[..k]).1) * Pow2(8 - k)
      {
        BitsStep(tdi, n - k - 1);
        assert bits[k] == bits[k..][0] && bits[k + 1..] == bits[k..][1..];
        NextBit(w, start, tms, bits, k);
        var tdoBit := jtag.TdioCycle(tdi);
        tdi := tdi / 2;
        acc := acc / 2 + tdoBit * 0x80;
        k := k + 1;
      }
      assert bits[..n] == bits;
      ShiftedBack(ValueOf(Clocked(w, start, tms, bits).1), 8 - n);
      ByteIsValue(Clocked(w, start, tms, bits).1);
      tdo := ShiftRight(acc, 8 - n);
    }

    /** The bits of one sequence, as far as their bytes are there and the captured ones fit. */
    method ShiftSequence(s: Head) returns (error: Option<Error>)
      requires Valid()
      modifies `request, `response, jtag`tck, jtag`tdi, jtag`chain, jtag`clocks
      ensures Valid() && response.cap == old(response.cap)
      ensures error == None <==>
        |old(request.items)| >= s.Bytes() && (s.capture ==> Fits(old(response), s.Bytes()))
      ensures error == None ==>
        var r := Clocked(jtag.world, old(jtag.chain), jtag.tms, Unpack(old(request.items)[..s.Bytes()])[..s.cycles]);
        && request.items == old(request.items)[s.Bytes()..] && jtag.chain == r.0
        && response.items == old(response.items) + if s.capture then Pack(r.1) else []
    {
      hide Pack, Unpack, Clocked, TapChain.Step, BitsOf, ByteOf;
      var left := s.cycles;
      ghost var j, w, tms, start, sent, items := 0, jtag.world, jtag.tms, jtag.chain, response.items, request.items;
      StartSequence(w, start, tms, items, s.cycles);
      while left > 0
        invariant Valid() && response.cap == old(response.cap) && 0 <= left <= s.cycles
        invariant j == s.Bytes() - (left + 7) / 8 && j <= |items| && request.items == items[j..]
        invariant left > 0 ==> 8 * j == s.cycles - left
        invariant var r := Clocked(w, start, tms, FirstBits(items, j, s.cycles));
          jtag.chain == r.0 && response.items == sent + if s.capture then Pack(r.1) else []
        invariant s.capture ==> |response.items| == |sent| + j
      {
        var got := request.Get(1);
        if got.None? {
          return Some(MsgSize);
        }
        assert got.value.0 == [items[j]] && items[j..][1..] == items[j + 1..];
        request := got.value.1;
        var n := Min(8, left);
        NextByte(w, start, tms, items, s.cycles, j, n);
        var tdo := ShiftByte(got.value.0[0], n);
        left := left - n;
        j := j + 1;
        if s.capture {
          var put := response.Put([tdo]);
          if put.None? {
            return Some(NoBufs);
          }
          response := put.value;
        }
      }
      error := None;
    }

    /** The bytes of one sequence while another port is selected. */
    method SkipSequence(s: Head) returns (error: Option<Error>)
      requires Valid()
      modifies `request
      ensures Valid() && error == (if |old(request.items)| >= s.Bytes() then None else Some(MsgSize))
      ensures error == None ==> request.items == old(request.items)[s.Bytes()..]
    {
      var left := s.cycles;
      ghost var j, items := 0, request.items;
      while left > 0
        invariant Valid() && 0 <= left <= s.cycles
        invariant j == s.Bytes() - (left + 7) / 8 && j <= |items| && request.items == items[j..]
      {
        var got := request.Get(1);
        if got.None? {
          return Some(MsgSize);
        }
        assert items[j..][1..] == items[j + 1..];
        request := got.value.1;
        left := left - Min(8, left);
        j := j + 1;
      }
      error := None;
    }

    /** One sequence: its first byte, then its bits. */
    method HandleSequence() returns (error: Option<Error>)
      requires Valid()
      modifies `request, `response, jtag`tck, jtag`tms, jtag`tdi, jtag`chain, jtag`clocks
      ensures Valid() && response.cap == old(response.cap)
      ensures var one := One(old(request.items), true);
        if one.None? then error != None else
          var (chain, captured) := Run(jtag.world, port.Jtag?)(old(jtag.chain), one.value.0);
          && (error == None <==> Fits(old(response), |captured|))
          && (error == None ==>
            && request.items == one.value.1 && jtag.chain == chain
            && response.items == old(response.items) + captured)
    {
      hide Clocked, Pack, Unpack;
      var got := request.Get(1);
      if got.None? {
        return Some(MsgSize);
      }
      ghost var items := request.items;
      request := got.value.1;
      var head := HeadOf(got.value.0[0]);
      if |items| - 1 >= head.Bytes() {
        assert items[1..][..head.Bytes()] == items[1..1 + head.Bytes()];
        assert items[1..][head.Bytes()..] == items[1 + head.Bytes()..];
      }
      if !port.Jtag? {
        error := SkipSequence(head);
      } else {
        jtag.tms := head.tms;
        error := ShiftSequence(head);
      }
    }

    /** The loop over the sequences. */
    method HandleSequences(count: byte) returns (error: Option<Error>, status: byte)
      requires Valid()
      modifies `request, `response, jtag`tck, jtag`tms, jtag`tdi, jtag`chain, jtag`clocks
      ensures Valid() && response.cap == old(response.cap)
      ensures error == None ==> status == if port.Jtag? || count == 0 then RESPONSE_OK else RESPONSE_ERROR
      ensures var r := Split(old(request.items), count, true);
        if r.None? then error != None else
          var (chain, captured) := RunAll(Run(jtag.world, port.Jtag?), old(jtag.chain), r.value.0);
          && (error == None <==> Fits(old(response), |captured|))
          && (error == None ==>
            && request.items == r.value.1 && jtag.chain == chain
            && response.items == old(response.items) + captured)
    {
      hide RunAll, Split, One, Run;
      status := RESPONSE_OK;
      var left := count;
      ghost var f, start := Run(jtag.world, port.Jtag?), jtag.chain;
      ghost var r, head := Split(request.items, count, true), response.items;
      ghost var collected: seq<byte> := [];
      AheadStart(f, start, r);
      while left > 0
        invariant Valid() && response.cap == old(response.cap) && 0 <= left <= count
        invariant status == if port.Jtag? || left == count then RESPONSE_OK else RESPONSE_ERROR
        invariant response.items == head + collected
        invariant Ahead(f, start, jtag.chain, r, Split(request.items, left, true), collected)
      {
        if !port.Jtag? {
          status := RESPONSE_ERROR;
        }
        ghost var items, c := request.items, jtag.chain;
        AheadStep(f, start, c, r, items, left, true, collected);
        error := HandleSequence();
        if error.Some? {
          return;
        }
        collected := collected + f(c, One(items, true).value.0).1;
        left := left - 1;
      }
      AheadEnd(f, start, jtag.chain, r, request.items, true, collected);
      error := None;
    }

    /** dap_handle_cmd_jtag_sequence. Which bytes the command takes depends on nothing but those bytes. */
    method HandleJtagSequence() returns (error: Option<Error>)
      requires Valid()
      modifies `request, `response, jtag`tck, jtag`tms, jtag`tdi, jtag`chain, jtag`clocks
      ensures Valid() && response.cap == old(response.cap)
      ensures var r := Parse(old(request.items), true);
        if r.None? then error != None else
          var (chain, captured) := RunAll(Run(jtag.world, port.Jtag?), old(jtag.chain), r.value.0);
          && (error == None <==> Fits(old(response), 2 + |captured|))
          && (error == None ==>
            && request.items == r.value.1 && jtag.chain == chain
            && response.items == old(response.items)
              + [CMD_JTAG_SEQUENCE, if port.Jtag? || |r.value.0| == 0 then RESPONSE_OK else RESPONSE_ERROR] + captured)
    {
      hide RunAll, Split, Run;
      var put := response.Put([CMD_JTAG_SEQUENCE]);
      if put.None? {
        return Some(MsgSize);
      }
      response := put.value;
      put := response.PutClaimed([0]);
      if put.None? {
        return Some(NoBufs);
      }
      var at := |response.items|;
      response := put.value;
      var got := request.Get(1);
      if got.None? {
        return Some(MsgSize);
      }
      request := got.value.1;
      var status;
      error, status := HandleSequences(got.value.0[0]);
      if error.None? {
        response := response.(items := response.items[at := status]);
      }
    }

    /** One bit of TMS. */
    method TmsBit(b: nat, ghost bits: seq<bool>, ghost start: TapChain.Chain, ghost i: nat)
      requires i < |bits| && bits[i] == (b % 2 == 1)
      requires jtag.chain == Moved(jtag.world, start, jtag.tdi, bits[..i])
      modifies jtag`tck, jtag`tms, jtag`chain, jtag`clocks
      ensures jtag.chain == Moved(jtag.world, start, jtag.tdi, bits[..i + 1])
    {
      hide TapChain.Step;
      jtag.tms := b % 2 == 1;
      jtag.TckCycle();
      assert bits[..i + 1][..i] == bits[..i];
    }

    /** dap_handle_cmd_swj_sequence. */
    method HandleSwjSequence() returns (error: Option<Error>)
      requires Valid()
      modifies `request, `response, jtag`tck, jtag`tms, jtag`chain, jtag`clocks
      ensures Valid() && response.cap == old(response.cap)
      ensures var items := old(request.items);
        if items == [] then error == Some(MsgSize) else
          var count := if items[0] == 0 then 256 else items[0];
          var bytes := (count + 7) / 8;
          if |items| <= bytes then error == Some(MsgSize) else
            && jtag.chain == Moved(jtag.world, old(jtag.chain), jtag.tdi, Unpack(items[1..1 + bytes])[..count])
            && request.items == items[1 + bytes..]
            && error == (if Fits(old(response), 2) then None else Some(NoBufs))
            && (error == None ==> response.items == old(response.items) + [CMD_SWJ_SEQUENCE, RESPONSE_OK])
    {
      hide Unpack, BitsOf, Moved, TapChain.Step;
      var got := request.Get(1);
      if got.None? {
        return Some(MsgSize);
      }
      ghost var all := request.items;
      request := got.value.1;
      var count: nat := got.value.0[0];
      if count == 0 {
        count := 256;
      }
      error := ShiftTms(count);
      if |all| > (count + 7) / 8 {
        assert all[1..][..(count + 7) / 8] == all[1..1 + (count + 7) / 8];
        assert all[1..][(count + 7) / 8..] == all[1 + (count + 7) / 8..];
      }
      if error.Some? {
        return;
      }
      var put := response.Put([CMD_SWJ_SEQUENCE, RESPONSE_OK]);
      if put.None? {
        return Some(NoBufs);
      }
      response := put.value;
    }

    /** The byte bit i of TMS comes from, shifted down to it. */
    method FetchTms(i: nat, b0: nat, ghost items: seq<byte>) returns (error: Option<Error>, b: nat)
      requires Valid() && Holds(items, i, b0) && request.items == items[(i + 7) / 8..]
      modifies `request
      ensures Valid() && request.cap == old(request.cap)
      ensures error == if i % 8 == 0 && |items| <= i / 8 then Some(MsgSize) else None
      ensures error == None ==>
        var n := i / 8 + 1;
        && n <= |items| && request.items == items[n..]
        && Unpack(items[..n])[i..] == BitsOf(b, 8 * n - i)
        && Unpack(items[..n])[..i] == Unpack(items[..(i + 7) / 8])[..i]
    {
      hide Unpack, BitsOf;
      b := b0;
      if i % 8 == 0 {
        assert (i + 7) / 8 == i / 8;
        var got := request.Get(1);
        if got.None? {
          return Some(MsgSize), b;
        }
        assert got.value.0 == [items[i / 8]] && items[i / 8..][1..] == items[i / 8 + 1..];
        request := got.value.1;
        NextTmsByte(items, i);
        b := got.value.0[0];
      } else {
        assert (i + 7) / 8 == i / 8 + 1;
      }
      error := None;
    }

    /** The loop over the bits of TMS. */
    method ShiftTms(count: nat) returns (error: Option<Error>)
      requires Valid()
      modifies `request, jtag`tck, jtag`tms, jtag`chain, jtag`clocks
      ensures Valid() && request.cap == old(request.cap)
      ensures var items, bytes := old(request.items), (count + 7) / 8;
        if |items| < bytes then error == Some(MsgSize) else
          && error == None && request.items == items[bytes..]
          && jtag.chain == Moved(jtag.world, old(jtag.chain), jtag.tdi, Unpack(items[..bytes])[..count])
    {
      hide Unpack, BitsOf, Moved, Holds, TapChain.Step;
      ghost var w, start, items := jtag.world, jtag.chain, request.items;
      var b: nat := 0;
      StartTms(w, start, jtag.tdi, items);
      var i := 0;
      while i < count
        invariant Valid() && request.cap == old(request.cap) && 0 <= i <= count
        invariant (i + 7) / 8 <= |items| && Holds(items, i, b) && request.items == items[(i + 7) / 8..]
        invariant jtag.chain == Moved(w, start, jtag.tdi, Unpack(items[..(i + 7) / 8])[..i])
      {
        error, b := FetchTms(i, b, items);
        if error.Some? {
          return;
        }
        TmsStep(items, i, b, i / 8 + 1);
        TmsBit(b, Unpack(items[..i / 8 + 1]), start, i);
        b := b / 2;
        i := i + 1;
      }
      error := None;
    }
  }
}
