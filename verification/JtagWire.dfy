/** The JTAG side of the probe, clock by clock (firmware/src/dap/commands_jtag.c and jtag_transfer in
    firmware/src/dap/commands_transfer.c), driving a chain of TAPs. */
module JtagWire {
  import opened Bits
  import opened DebugPort
  import opened RingBuffer
  import opened Status
  import opened TapChain

  const MAX_DEVICES: nat := 4

  /** During a scan the chain differs from base only in its state and shift path, and the path, read as one
      register, has lost the first |sent| bits of load and gained sent. */
  ghost predicate Scanning(c: Chain, base: Chain, lens: seq<nat>, load: seq<bool>, sent: seq<bool>)
  {
    && c == base.(state := c.state, path := c.path)
    && HasLens(c.path, lens)
    && |sent| <= |load| == Total(lens)
    && Flat(c.path) == load[|sent|..] + sent
  }

  lemma ScanStep(w: World, c: Chain, base: Chain, lens: seq<nat>, load: seq<bool>, sent: seq<bool>,
    tms: bool, tdi: bool)
    requires Scanning(c, base, lens, load, sent) && |sent| < |load|
    requires c.state == ShiftDr || c.state == ShiftIr
    requires |lens| > 0 && forall i :: 0 <= i < |lens| ==> lens[i] > 0
    ensures Tdo(c) == load[|sent|]
    ensures Scanning(Step(w, c, tms, tdi), base, lens, load, sent + [tdi])
    ensures Step(w, c, tms, tdi).state == NextState(c.state, tms)
  {
    FlatShift(c.path, tdi);
    assert load[|sent|..][1..] == load[|sent| + 1..];
    assert Flat(c.path)[1..] + [tdi] == load[|sent| + 1..] + (sent + [tdi]);
  }

  /** The instruction every TAP holds once device index has been given ir and all others BYPASS. */
  function InstructionsFor(irLen: seq<nat>, index: nat, ir: nat): (irs: seq<seq<bool>>)
    ensures |irs| == |irLen|
  {
    seq(|irLen|, i requires 0 <= i < |irLen| =>
      if i == index then BitsOf(ir, irLen[i]) else Repeat(true, irLen[i]))
  }

  /** Only TAP index takes part in DR scans as more than one bypass bit. */
  ghost predicate Selected(c: Chain, index: nat, instruction: Instruction) {
    && index < |c.ir|
    && Decode(c.ir[index]) == instruction
    && forall i :: 0 <= i < |c.ir| && i != index ==> Decode(c.ir[i]) == Bypass
  }

  /** The bits of an IR scan, in the order they are shifted. */
  function IrBits(value: nat, before: nat, len: nat, after: nat): (bits: seq<bool>)
    ensures |bits| == before + len + after
  {
    Repeat(true, before) + BitsOf(value, len) + Repeat(true, after)
  }

  lemma IrBitsJoin(value: nat, before: nat, len: nat, after: nat, last: bool)
    requires len > 0 && BitsOf(value, len) == BitsOf(value, len - 1) + [last]
    ensures [] + Repeat(true, before) + BitsOf(value, len - 1) + [last] + Repeat(true, after)
      == IrBits(value, before, len, after)
  {
  }

  /** Stages lo to hi of the chain lie inside the first Total(lens[..hi]) bits. */
  lemma TotalWithin(lens: seq<nat>, i: nat, j: nat)
    requires i < j <= |lens|
    ensures Total(lens[..i]) + lens[i] <= Total(lens[..j])
  {
    TotalAt(lens[..j], i);
    assert lens[..j][..i] == lens[..i];
  }

  /** The bits shifted during a complete IR scan are exactly the selected instructions, end to end. */
  lemma IrScanComplete(path: seq<seq<bool>>, lens: seq<nat>, index: nat, value: nat, before: nat, after: nat)
    requires HasLens(path, lens) && index < |lens|
    requires before == Total(lens[..index])
    requires Flat(path) == IrBits(value, before, lens[index], after)
    ensures path == InstructionsFor(lens, index, value)
  {
    forall i | 0 <= i < |path|
      ensures path[i] == InstructionsFor(lens, index, value)[i]
    {
      IrStageComplete(path, lens, index, value, before, after, i);
    }
  }

  lemma IrStageComplete(path: seq<seq<bool>>, lens: seq<nat>, index: nat, value: nat, before: nat, after: nat, i: nat)
    requires HasLens(path, lens) && index < |lens| && i < |lens|
    requires before == Total(lens[..index])
    requires Flat(path) == IrBits(value, before, lens[index], after)
    ensures path[i] == if i == index then BitsOf(value, lens[i]) else Repeat(true, lens[i])
  {
    hide Total, Flat, BitsOf;
    var o := Total(lens[..i]);
    FlatSlice(path, lens, i);
    if i < index {
      TotalWithin(lens, i, index);
    } else if i > index {
      TotalWithin(lens, index, i);
    }
    assert forall k :: 0 <= k < lens[i] ==> path[i][k] == Flat(path)[o + k];
  }

  /** Shift-stage lengths of a DR scan that reaches one 35-bit (or 32-bit) register past bypass bits. */
  function DrLens(n: nat, index: nat, len: nat): (lens: seq<nat>)
    ensures |lens| == n
  {
    seq(n, i => if i == index then len else 1)
  }

  lemma {:induction false} TotalOnes(n: nat)
    ensures Total(Repeat<nat>(1, n)) == n
  {
    if n > 0 {
      TotalOnes(n - 1);
      assert Repeat<nat>(1, n)[1..] == Repeat<nat>(1, n - 1);
    }
  }

  lemma DrLensTotal(n: nat, index: nat, len: nat)
    requires index < n
    ensures Total(DrLens(n, index, len)[..index]) == index
    ensures Total(DrLens(n, index, len)) == n - 1 + len
  {
    var lens := DrLens(n, index, len);
    assert lens[..index] == Repeat<nat>(1, index);
    assert lens[index + 1..] == Repeat<nat>(1, n - index - 1);
    TotalOnes(index);
    TotalOnes(n - index - 1);
    TotalAt(lens, index);
  }

  /** Capture-DR: the selected device's register appears index bits into the long register. */
  lemma DrCaptured(w: World, c: Chain, index: nat, len: nat) returns (load: seq<bool>)
    requires c.Valid() && c.state == CaptureDr && index < |c.ir|
    requires forall i :: 0 <= i < |c.ir| && i != index ==> Decode(c.ir[i]) == Bypass
    requires len == |DrLoad(w, c.ir[index], c.idcode[index], c.dp[index])|
    ensures var n := Step(w, c, false, false);
      && Scanning(n, c.(dp := c.dp[index := CaptureDp(c.ir[index], c.dp[index])]), DrLens(|c.ir|, index, len), load, [])
      && n.state == ShiftDr
    ensures forall tdi :: Step(w, c, false, tdi) == Step(w, c, false, false)
    ensures |load| == |c.ir| - 1 + len
    ensures load[index..index + len] == DrLoad(w, c.ir[index], c.idcode[index], c.dp[index])
  {
    var n := Step(w, c, false, false);
    load := Flat(n.path);
    var lens := DrLens(|c.ir|, index, len);
    assert n.dp == c.dp[index := CaptureDp(c.ir[index], c.dp[index])];
    FlatLength(n.path, lens);
    FlatSlice(n.path, lens, index);
    DrLensTotal(|c.ir|, index, len);
  }

  /** Update-DR then Run-Test/Idle: only the selected device's port can change. */
  lemma DrUpdated(w: World, c: Chain, index: nat)
    requires c.Valid() && c.state == UpdateDr && index < |c.ir| == |c.path|
    requires forall i :: 0 <= i < |c.ir| && i != index ==> Decode(c.ir[i]) == Bypass
    ensures forall tdi :: (
      Step(w, c, false, tdi)
        == c.(state := RunTestIdle, dp := c.dp[index := UpdateDp(w, c.ir[index], c.path[index], c.dp[index])]))
  {
    forall tdi
      ensures Step(w, c, false, tdi)
        == c.(state := RunTestIdle, dp := c.dp[index := UpdateDp(w, c.ir[index], c.path[index], c.dp[index])])
    {
      var dps := c.dp[index := UpdateDp(w, c.ir[index], c.path[index], c.dp[index])];
      assert UpdateChain(w, c).dp == dps;
    }
  }

  /** Capture-DR as far as the debug ports are concerned. */
  function Captured(c: Chain, index: nat): (r: Chain)
    requires index < |c.ir| == |c.dp|
  {
    c.(dp := c.dp[index := CaptureDp(c.ir[index], c.dp[index])])
  }

  function AccessInstruction(request: byte): (r: Instruction) {
    if IsAp(request) then ApAcc else DpAcc
  }

  function Header(request: byte): (bits: seq<bool>)
    ensures |bits| == 3
  {
    [IsRead(request), A2(request), A3(request)]
  }

  /** RnW, A2 and A3 of the request byte go out in that order, to the register that APnDP selects. */
  lemma HeaderBits(ap: bool, rnw: bool, a2: bool, a3: bool, high: nat)
    requires high < 16
    ensures var request := ToInt(ap) + 2 * ToInt(rnw) + 4 * ToInt(a2) + 8 * ToInt(a3) + 16 * high;
      Header(request) == [rnw, a2, a3] && AccessInstruction(request) == if ap then ApAcc else DpAcc
  {
    RequestDecoded(ap, rnw, a2, a3, high, 0);
  }

  lemma AccessLoad(w: World, ir: seq<bool>, idcode: word, dp: Dp, request: byte)
    requires Decode(ir) == AccessInstruction(request)
    ensures DrLoad(w, ir, idcode, dp) == AckBits(w.ack(dp.attempts)) + BitsOf(dp.readBuf, 32)
  {
  }

  /** The three bits after the bypass bits are the acknowledge, reordered. */
  lemma AckOfLoad(w: World, dp: Dp, load: seq<bool>, index: nat)
    requires |load| >= index + 35
    requires load[index..index + 35] == AckBits(w.ack(dp.attempts)) + BitsOf(dp.readBuf, 32)
    ensures 2 * ToInt(load[index]) + ToInt(load[index + 1]) + 4 * ToInt(load[index + 2]) == w.ack(dp.attempts)
  {
    hide BitsOf;
    var s := load[index..index + 35];
    assert s[0] == load[index] && s[1] == load[index + 1] && s[2] == load[index + 2];
  }

  lemma WordOfLoad(w: World, dp: Dp, load: seq<bool>, index: nat)
    requires |load| >= index + 35
    requires load[index..index + 35] == AckBits(w.ack(dp.attempts)) + BitsOf(dp.readBuf, 32)
    ensures ValueOf(load[index + 3..index + 35]) == dp.readBuf
  {
    hide BitsOf, ValueOf;
    var s := load[index..index + 35];
    assert load[index + 3..index + 35] == s[3..] == BitsOf(dp.readBuf, 32);
    WordRoundTrip(dp.readBuf);
  }

  lemma HeldJoin(sent: seq<bool>, tdi: bool, after: nat)
    ensures after > 0 ==>
      sent + Repeat(tdi, 31) + [tdi] + Repeat(tdi, after - 1) + [tdi] == sent + Repeat(tdi, 32) + Repeat(tdi, after)
    ensures after == 0 ==> sent + Repeat(tdi, 31) + [tdi] == sent + Repeat(tdi, 32) + Repeat(tdi, after)
  {
  }

  /** After a complete DR scan the selected stage holds what was shifted into its place. */
  lemma StageComplete(c: Chain, base: Chain, count: nat, index: nat, load: seq<bool>,
    sent: seq<bool>, word: seq<bool>, held: bool, after: nat)
    requires index < count && |sent| == index + 3 && |word| == 32 && after == count - index - 1
    requires Scanning(c, base, DrLens(count, index, 35), load, sent + word + Repeat(held, after))
    ensures |c.path| == count && c.path[index] == sent[index..] + word
  {
    hide Total, Flat;
    var lens := DrLens(count, index, 35);
    DrLensTotal(count, index, 35);
    FlatSlice(c.path, lens, index);
    assert (sent + word + Repeat(held, after))[index..index + 35] == sent[index..] + word;
  }

  /** A 35-bit register latched after OK performs exactly the requested access. */
  lemma TransactUpdate(w: World, ir: seq<bool>, dp: Dp, request: byte, data: word, word: seq<bool>)
    requires Decode(ir) == AccessInstruction(request) && |word| == 32
    requires w.ack(dp.attempts) == ACK_OK
    requires !IsRead(request) ==> word == BitsOf(data, 32)
    ensures UpdateDp(w, ir, Header(request) + word, CaptureDp(ir, dp)) == JtagTransact(w, dp, request, data).dp
  {
    hide Decode, BitsOf, ValueOf;
    var dr := Header(request) + word;
    assert dr[3..] == word;
    WordRoundTrip(data);
    assert Latched(ir, dr) == AccessOf(request, data);
  }

  /** Without OK the port discards whatever the aborted scan left in the register. */
  lemma TransactRefused(w: World, ir: seq<bool>, dp: Dp, request: byte, data: word)
    requires Decode(ir) == AccessInstruction(request)
    ensures w.ack(dp.attempts) != ACK_OK ==>
      forall dr :: UpdateDp(w, ir, dr, CaptureDp(ir, dp)) == JtagTransact(w, dp, request, data).dp
  {
  }

  lemma IdcodeOfLoad(idcode: word, load: seq<bool>, index: nat)
    requires |load| >= index + 32 && load[index..index + 32] == BitsOf(idcode, 32)
    ensures ValueOf(load[index..index + 31]) + ToInt(load[index + 31]) * Pow2(31) == idcode
  {
    hide BitsOf, ValueOf, Pow2;
    assert load[index..index + 32] == load[index..index + 31] + [load[index + 31]];
    ValueOfSnoc(load[index..index + 31], load[index + 31]);
    WordRoundTrip(idcode);
  }

  /** The three 4-bit instructions the probe uses keep their meaning in any register of at least four bits, where
      the higher bits are shifted in as zeros. */
  lemma {:induction false} InstructionFits(value: nat, n: nat)
    requires value < 16 && value != 15 && n >= 4
    ensures ValueOf(BitsOf(value, n)) == value
    ensures exists k :: 0 <= k < n && !BitsOf(value, n)[k]
  {
    assert Pow2(4) == 16;
    Pow2Grows(4, n);
    ValueOfBitsOf(value, n);
    if forall k :: 0 <= k < n ==> BitsOf(value, n)[k] {
      ValueOfOnes(BitsOf(value, n));
    }
  }

  lemma {:induction false} ValueOfOnes(bits: seq<bool>)
    requires forall k :: 0 <= k < |bits| ==> bits[k]
    ensures ValueOf(bits) == Pow2(|bits|) - 1
  {
    if bits != [] {
      ValueOfOnes(bits[1..]);
    }
  }

  /** After SetIr the selected device decodes the instruction and every other device is in BYPASS. */
  lemma SelectedAfterSetIr(c: Chain, index: nat, value: nat)
    requires c.Valid() && index < |c.irLen| && c.irLen[index] >= 4
    requires value == IR_DPACC || value == IR_APACC || value == IR_IDCODE
    ensures Selected(c.(ir := InstructionsFor(c.irLen, index, value)), index,
      if value == IR_DPACC then DpAcc else if value == IR_APACC then ApAcc else IdCode)
  {
    InstructionFits(value, c.irLen[index]);
  }

  lemma PrefixTotals(lens: seq<byte>, n: nat)
    requires n <= |lens|
    ensures forall k :: 0 <= k < n ==> Total(lens[..n][..k]) == Total(lens[..k])
  {
    assert forall k :: 0 <= k < n ==> lens[..n][..k] == lens[..k];
  }

  /** The sub-structure dap->jtag with the JTAG pins and the chain they are wired to. */
  class JtagPort {
    const world: World
    const irLength: array<nat>
    const irBefore: array<nat>
    const irAfter: array<nat>
    var count: nat
    var index: nat

    var tck: bool
    var tms: bool
    var tdi: bool
    var chain: Chain
    ghost var clocks: nat

    /** JTAG_Configure has described this chain. */
    ghost predicate Configured()
      reads this, irLength, irBefore, irAfter
    {
      && irLength.Length == irBefore.Length == irAfter.Length == MAX_DEVICES
      && chain.Valid()
      && count == |chain.irLen| <= MAX_DEVICES
      && forall i :: 0 <= i < count ==>
        && irLength[i] == chain.irLen[i]
        && irBefore[i] == Total(chain.irLen[..i])
        && irAfter[i] == Total(chain.irLen[i + 1..])
    }

    method SetTck(level: bool)
      modifies `tck, `chain, `clocks
      ensures tck == level
      ensures chain == if level && !old(tck) then Step(world, old(chain), tms, tdi) else old(chain)
      ensures clocks == old(clocks) + ToInt(level && !old(tck))
    {
      if level && !tck {
        chain := Step(world, chain, tms, tdi);
        clocks := clocks + 1;
      }
      tck := level;
    }

    method TckCycle()
      modifies `tck, `chain, `clocks
      ensures chain == Step(world, old(chain), tms, tdi) && clocks == old(clocks) + 1
    {
      SetTck(false);
      SetTck(true);
    }

    method TdiCycle(bit: nat)
      modifies `tck, `tdi, `chain, `clocks
      ensures tdi == (bit % 2 == 1)
      ensures chain == Step(world, old(chain), tms, tdi) && clocks == old(clocks) + 1
    {
      tdi := bit % 2 == 1;
      SetTck(false);
      SetTck(true);
    }

    method TdoCycle() returns (tdo: nat)
      modifies `tck, `chain, `clocks
      ensures tdo == ToInt(Tdo(old(chain)))
      ensures chain == Step(world, old(chain), tms, tdi) && clocks == old(clocks) + 1
    {
      SetTck(false);
      tdo := ToInt(Tdo(chain));
      SetTck(true);
    }

    method TdioCycle(bit: nat) returns (tdo: nat)
      modifies `tck, `tdi, `chain, `clocks
      ensures tdi == (bit % 2 == 1)
      ensures tdo == ToInt(Tdo(old(chain)))
      ensures chain == Step(world, old(chain), tms, tdi) && clocks == old(clocks) + 1
    {
      tdi := bit % 2 == 1;
      SetTck(false);
      tdo := ToInt(Tdo(chain));
      SetTck(true);
    }

    /** A scan has begun from base and shifted sent into a path that captured load. */
    ghost predicate Shifting(base: Chain, lens: seq<nat>, load: seq<bool>, sent: seq<bool>)
      reads this
    {
      && (chain.state == ShiftDr || chain.state == ShiftIr)
      && |lens| > 0
      && (forall i :: 0 <= i < |lens| ==> lens[i] > 0)
      && Scanning(chain, base, lens, load, sent)
    }

    /** n clocks of shifting with TDI held: the way past the TAPs that are in BYPASS. */
    method ShiftHeld(n: nat, ghost base: Chain, ghost lens: seq<nat>, ghost load: seq<bool>, ghost sent: seq<bool>)
      requires Shifting(base, lens, load, sent) && |sent| + n <= |load| && !tms
      modifies `tck, `chain, `clocks
      ensures Shifting(base, lens, load, sent + Repeat(tdi, n)) && chain.state == old(chain.state)
      ensures clocks == old(clocks) + n
    {
      hide Scanning, Step;
      assert sent == sent + Repeat(tdi, 0);
      for i := 0 to n
        invariant Shifting(base, lens, load, sent + Repeat(tdi, i)) && chain.state == old(chain.state)
        invariant clocks == old(clocks) + i
      {
        ScanStep(world, chain, base, lens, load, sent + Repeat(tdi, i), tms, tdi);
        TckCycle();
        assert sent + Repeat(tdi, i) + [tdi] == sent + Repeat(tdi, i + 1);
      }
    }

    /** Shifts the low n bits of value, and returns what is left of it. */
    method ShiftValue(value: nat, n: nat,
      ghost base: Chain, ghost lens: seq<nat>, ghost load: seq<bool>, ghost sent: seq<bool>)
      returns (rest: nat)
      requires Shifting(base, lens, load, sent) && |sent| + n <= |load| && !tms
      modifies `tck, `tdi, `chain, `clocks
      ensures Shifting(base, lens, load, sent + BitsOf(value, n)) && chain.state == old(chain.state)
      ensures BitsOf(value, n + 1) == BitsOf(value, n) + [rest % 2 == 1]
      ensures clocks == old(clocks) + n
    {
      hide Scanning, Step;
      rest := value;
      ghost var bits := BitsOf(value, n + 1);
      BitsPrefix(value, n);
      assert sent == sent + bits[..0];
      for i := 0 to n
        invariant BitsOf(rest, n + 1 - i) == bits[i..]
        invariant Shifting(base, lens, load, sent + bits[..i]) && chain.state == old(chain.state)
        invariant clocks == old(clocks) + i
      {
        assert BitsOf(rest, n + 1 - i)[0] == bits[i];
        ScanStep(world, chain, base, lens, load, sent + bits[..i], tms, bits[i]);
        TdiCycle(rest);
        assert sent + bits[..i] + [bits[i]] == sent + bits[..i + 1];
        rest := rest / 2;
      }
      assert BitsOf(rest, 1)[0] == bits[n];
      assert bits == bits[..n] + [bits[n]];
    }

    /** The last clock of a scan, which also leaves the shift state. */
    method ShiftLast(ghost base: Chain, ghost lens: seq<nat>, ghost load: seq<bool>, ghost sent: seq<bool>)
      requires Shifting(base, lens, load, sent) && |sent| + 1 == |load| && tms
      modifies `tck, `chain, `clocks
      ensures Scanning(chain, base, lens, load, sent + [tdi])
      ensures chain.state == if old(chain.state) == ShiftIr then Exit1Ir else Exit1Dr
      ensures clocks == old(clocks) + 1
    {
      ScanStep(world, chain, base, lens, load, sent, tms, tdi);
      TckCycle();
    }

    /** Select-DR-Scan, Select-IR-Scan, Capture-IR, Shift-IR. */
    method BeginIrScan()
      requires chain.state == RunTestIdle
      modifies `tck, `tms, `chain, `clocks
      ensures chain == old(chain).(state := ShiftIr, path := chain.irCapture)
      ensures !tms && clocks == old(clocks) + 4
    {
      tms := true;
      TckCycle();
      TckCycle();
      tms := false;
      TckCycle();
      TckCycle();
    }

    /** Update-IR, then idle. */
    method EndIrScan()
      requires chain.state == Exit1Ir && tms
      modifies `tck, `tms, `tdi, `chain, `clocks
      ensures chain == old(chain).(state := RunTestIdle, ir := old(chain).path)
      ensures !tms && tdi && clocks == old(clocks) + 2
    {
      TckCycle();
      tms := false;
      TckCycle();
      tdi := true;
    }

    /** Set the last ir bit, bypass all remaining ir bits, and leave the shift state. */
    method ShiftIrTail(ir: nat, after: nat,
      ghost base: Chain, ghost lens: seq<nat>, ghost load: seq<bool>, ghost sent: seq<bool>)
      requires Shifting(base, lens, load, sent) && |sent| + 1 + after == |load| && !tms && chain.state == ShiftIr
      modifies `tck, `tms, `tdi, `chain, `clocks
      ensures Scanning(chain, base, lens, load, sent + [ir % 2 == 1] + Repeat(true, after))
      ensures tms && chain.state == Exit1Ir && clocks == old(clocks) + 1 + after
    {
      if after == 0 {
        tms := true;
        ScanStep(world, chain, base, lens, load, sent, tms, ir % 2 == 1);
        TdiCycle(ir);
        assert sent + [tdi] == sent + [ir % 2 == 1] + Repeat(true, 0);
      } else {
        ScanStep(world, chain, base, lens, load, sent, tms, ir % 2 == 1);
        TdiCycle(ir);
        tdi := true;
        ghost var sent1 := sent + [ir % 2 == 1];
        ShiftHeld(after - 1, base, lens, load, sent1);
        tms := true;
        ShiftLast(base, lens, load, sent1 + Repeat(true, after - 1));
        assert sent1 + Repeat(true, after - 1) + [true] == sent1 + Repeat(true, after);
      }
    }

    /** The whole of Shift-IR: ones for the devices before, value, ones for the devices after. */
    method ShiftIrBits(value: nat, before: nat, len: nat, after: nat,
      ghost base: Chain, ghost lens: seq<nat>, ghost load: seq<bool>)
      requires Shifting(base, lens, load, []) && before + len + after == |load| && len > 0
      requires !tms && chain.state == ShiftIr
      modifies `tck, `tms, `tdi, `chain, `clocks
      ensures Scanning(chain, base, lens, load, IrBits(value, before, len, after))
      ensures tms && chain.state == Exit1Ir && clocks == old(clocks) + |load|
    {
      hide Scanning;
      tdi := true;
      ShiftHeld(before, base, lens, load, []);
      ghost var sent := [] + Repeat(true, before);
      var ir := ShiftValue(value, len - 1, base, lens, load, sent);
      ShiftIrTail(ir, after, base, lens, load, sent + BitsOf(value, len - 1));
      IrBitsJoin(value, before, len, after, ir % 2 == 1);
    }

    /** From Run-Test/Idle back to Run-Test/Idle, latching value in device index and BYPASS everywhere else. */
    method SetIr(value: nat)
      requires Configured() && chain.state == RunTestIdle && index < count
      modifies `tck, `tms, `tdi, `chain, `clocks
      ensures chain == old(chain).(ir := InstructionsFor(chain.irLen, index, value), path := chain.path)
      ensures Configured()
      ensures clocks == old(clocks) + 6 + Total(chain.irLen)
    {
      hide Total, Flat, Step, BitsOf;
      ghost var lens := chain.irLen;
      var before, len, after := irBefore[index], irLength[index], irAfter[index];
      TotalAt(lens, index);
      BeginIrScan();
      ghost var load := Flat(chain.path);
      FlatLength(chain.path, lens);
      ShiftIrBits(value, before, len, after, chain, lens, load);
      IrScanComplete(chain.path, lens, index, value, before, after);
      EndIrScan();
    }

    /** Select-DR-Scan, Capture-DR, Shift-DR. */
    method BeginDrScan(ghost len: nat) returns (ghost load: seq<bool>)
      requires Configured() && chain.state == RunTestIdle && index < count
      requires forall i :: 0 <= i < count && i != index ==> Decode(chain.ir[i]) == Bypass
      requires len == |DrLoad(world, chain.ir[index], chain.idcode[index], chain.dp[index])|
      modifies `tck, `tms, `chain, `clocks
      ensures Shifting(Captured(old(chain), index), DrLens(count, index, len), load, [])
      ensures chain.state == ShiftDr && !tms && clocks == old(clocks) + 3
      ensures |load| == count - 1 + len
      ensures load[index..index + len] == old(DrLoad(world, chain.ir[index], chain.idcode[index], chain.dp[index]))
    {
      hide Flat, Total;
      tms := true;
      TckCycle();
      tms := false;
      TckCycle();
      load := DrCaptured(world, chain, index, len);
      TckCycle();
    }

    /** Clocks in RnW, A2 and A3 while the acknowledge of the previous access comes out. */
    method ShiftHeader(request: byte,
      ghost base: Chain, ghost lens: seq<nat>, ghost load: seq<bool>, ghost sent: seq<bool>)
      returns (ack: nat)
      requires Shifting(base, lens, load, sent) && |sent| + 3 < |load| && !tms && chain.state == ShiftDr
      modifies `tck, `tdi, `chain, `clocks
      ensures Shifting(base, lens, load, sent + Header(request)) && chain.state == ShiftDr
      ensures ack == 2 * ToInt(load[|sent|]) + ToInt(load[|sent| + 1]) + 4 * ToInt(load[|sent| + 2])
      ensures clocks == old(clocks) + 3
    {
      hide Scanning, Step;
      ScanStep(world, chain, base, lens, load, sent, tms, IsRead(request));
      var bit := TdioCycle(request / 2);
      ack := 2 * bit;
      ScanStep(world, chain, base, lens, load, sent + [IsRead(request)], tms, A2(request));
      bit := TdioCycle(request / 4);
      ack := ack + bit;
      ScanStep(world, chain, base, lens, load, sent + [IsRead(request)] + [A2(request)], tms, A3(request));
      bit := TdioCycle(request / 8);
      ack := ack + 4 * bit;
      assert sent + [IsRead(request)] + [A2(request)] + [A3(request)] == sent + Header(request);
    }

    /** n clocks with TDI held, collecting TDO as the low n bits of value. */
    method ReadBits(n: nat, ghost base: Chain, ghost lens: seq<nat>, ghost load: seq<bool>, ghost sent: seq<bool>)
      returns (value: nat)
      requires Shifting(base, lens, load, sent) && |sent| + n <= |load| && !tms
      modifies `tck, `chain, `clocks
      ensures Shifting(base, lens, load, sent + Repeat(tdi, n)) && chain.state == old(chain.state)
      ensures value == ValueOf(load[|sent|..|sent| + n])
      ensures clocks == old(clocks) + n
    {
      hide Scanning, Step;
      value := 0;
      assert sent == sent + Repeat(tdi, 0);
      for i := 0 to n
        invariant Shifting(base, lens, load, sent + Repeat(tdi, i)) && chain.state == old(chain.state)
        invariant value == ValueOf(load[|sent|..|sent| + i])
        invariant clocks == old(clocks) + i
      {
        ScanStep(world, chain, base, lens, load, sent + Repeat(tdi, i), tms, tdi);
        var bit := TdoCycle();
        ValueOfSnoc(load[|sent|..|sent| + i], load[|sent| + i]);
        assert load[|sent|..|sent| + i] + [load[|sent| + i]] == load[|sent|..|sent| + i + 1];
        value := value + bit * Pow2(i);
        assert sent + Repeat(tdi, i) + [tdi] == sent + Repeat(tdi, i + 1);
      }
    }

    /** The data word of a read, then the devices after, then Exit1-DR. */
    method ReadWord(after: nat, ghost base: Chain, ghost lens: seq<nat>, ghost load: seq<bool>, ghost sent: seq<bool>)
      returns (dr: nat)
      requires Shifting(base, lens, load, sent) && |sent| + 32 + after == |load| && !tms && chain.state == ShiftDr
      modifies `tck, `tms, `chain, `clocks
      ensures Scanning(chain, base, lens, load, sent + Repeat(tdi, 32) + Repeat(tdi, after))
      ensures chain.state == Exit1Dr && tms && clocks == old(clocks) + 32 + after
      ensures dr == ValueOf(load[|sent|..|sent| + 32])
    {
      hide Scanning, Step, ValueOf, Pow2;
      dr := ReadBits(31, base, lens, load, sent);
      ghost var sent1 := sent + Repeat(tdi, 31);
      ScanStep(world, chain, base, lens, load, sent1, after == 0, tdi);
      ghost var word := load[|sent|..|sent| + 31];
      ValueOfSnoc(word, load[|sent| + 31]);
      assert word + [load[|sent| + 31]] == load[|sent|..|sent| + 32];
      if after > 0 {
        var bit := TdoCycle();
        dr := dr + bit * Pow2(31);
        ShiftHeld(after - 1, base, lens, load, sent1 + [tdi]);
        tms := true;
        ShiftLast(base, lens, load, sent1 + [tdi] + Repeat(tdi, after - 1));
      } else {
        tms := true;
        var bit := TdoCycle();
        dr := dr + bit * Pow2(31);
      }
      HeldJoin(sent, tdi, after);
    }

    /** The data word of a write, then the devices after, then Exit1-DR. */
    method WriteWord(data: word, after: nat,
      ghost base: Chain, ghost lens: seq<nat>, ghost load: seq<bool>, ghost sent: seq<bool>)
      requires Shifting(base, lens, load, sent) && |sent| + 32 + after == |load| && !tms && chain.state == ShiftDr
      modifies `tck, `tms, `tdi, `chain, `clocks
      ensures Scanning(chain, base, lens, load, sent + BitsOf(data, 32) + Repeat(tdi, after))
      ensures chain.state == Exit1Dr && tms && clocks == old(clocks) + 32 + after
    {
      hide Scanning, Step, BitsOf;
      var dr := ShiftValue(data, 31, base, lens, load, sent);
      ghost var sent1 := sent + BitsOf(data, 31);
      ghost var last := dr % 2 == 1;
      ScanStep(world, chain, base, lens, load, sent1, after == 0, last);
      assert sent1 + [last] == sent + BitsOf(data, 32);
      if after > 0 {
        TdiCycle(dr);
        ShiftHeld(after - 1, base, lens, load, sent1 + [last]);
        tms := true;
        ShiftLast(base, lens, load, sent1 + [last] + Repeat(tdi, after - 1));
        assert sent1 + [last] + Repeat(tdi, after - 1) + [tdi] == sent + BitsOf(data, 32) + Repeat(tdi, after);
      } else {
        tms := true;
        TdiCycle(dr);
        assert sent1 + [last] == sent + BitsOf(data, 32) + Repeat(tdi, 0);
      }
    }

    /** Update-DR, then idle. */
    method EndDrScan()
      requires chain.Valid() && chain.state == Exit1Dr && tms && index < |chain.ir| == |chain.path| == |chain.dp|
      requires forall i :: 0 <= i < |chain.ir| && i != index ==> Decode(chain.ir[i]) == Bypass
      modifies `tck, `tms, `chain, `clocks
      ensures !tms && clocks == old(clocks) + 2
      ensures chain == old(chain).(
        state := RunTestIdle,
        dp := old(chain.dp[index := UpdateDp(world, chain.ir[index], chain.path[index], chain.dp[index])]))
    {
      TckCycle();
      tms := false;
      DrUpdated(world, chain, index);
      TckCycle();
    }

    method IdleCycles(n: nat)
      requires chain.state == RunTestIdle && !tms
      modifies `tck, `chain, `clocks
      ensures chain == old(chain) && clocks == old(clocks) + n
    {
      for i := 0 to n
        invariant chain == old(chain) && clocks == old(clocks) + i
      {
        TckCycle();
      }
    }

    /** The rest of a scan that captured OK: the word and the devices after. */
    method ShiftAccepted(request: byte, data: word,
      ghost base: Chain, ghost load: seq<bool>, ghost sent: seq<bool>, ghost dp: Dp)
      returns (result: word)
      requires index < count == |base.ir| && !tms && chain.state == ShiftDr
      requires Shifting(base, DrLens(count, index, 35), load, sent + Header(request)) && |sent| == index
      requires |load| == count + 34
      requires load[index..index + 35] == AckBits(world.ack(dp.attempts)) + BitsOf(dp.readBuf, 32)
      requires world.ack(dp.attempts) == ACK_OK && Decode(base.ir[index]) == AccessInstruction(request)
      modifies `tck, `tms, `tdi, `chain, `clocks
      ensures chain == base.(state := Exit1Dr, path := chain.path) && |chain.path| == count && tms
      ensures UpdateDp(world, base.ir[index], chain.path[index], CaptureDp(base.ir[index], dp))
        == JtagTransact(world, dp, request, data).dp
      ensures result == JtagTransact(world, dp, request, data).data
      ensures clocks == old(clocks) + 31 + count - index
    {
      hide Total, Flat, Step, BitsOf, ValueOf, Decode, AckBits, UpdateDp;
      ghost var lens := DrLens(count, index, 35);
      var after := count - index - 1;
      ghost var word := Repeat(tdi, 32);
      result := data;
      if IsRead(request) {
        var dr := ReadWord(after, base, lens, load, sent + Header(request));
        WordOfLoad(world, dp, load, index);
        result := dr;
      } else {
        word := BitsOf(data, 32);
        WriteWord(data, after, base, lens, load, sent + Header(request));
      }
      StageComplete(chain, base, count, index, load, sent + Header(request), word, tdi, after);
      assert (sent + Header(request))[index..] == Header(request);
      TransactUpdate(world, base.ir[index], dp, request, data, word);
    }

    /** From Shift-DR to Exit1-DR: the register left in the selected device makes its port complete the
        transaction. */
    method ShiftAccess(request: byte, data: word, ghost base: Chain, ghost load: seq<bool>, ghost dp: Dp)
      returns (ack: nat, result: word)
      requires index < count == |base.ir| && !tms && chain.state == ShiftDr
      requires Shifting(base, DrLens(count, index, 35), load, []) && |load| == count + 34
      requires load[index..index + 35] == AckBits(world.ack(dp.attempts)) + BitsOf(dp.readBuf, 32)
      requires Decode(base.ir[index]) == AccessInstruction(request)
      modifies `tck, `tms, `tdi, `chain, `clocks
      ensures chain == base.(state := Exit1Dr, path := chain.path) && |chain.path| == count && tms
      ensures Reply(ack, result, UpdateDp(world, base.ir[index], chain.path[index], CaptureDp(base.ir[index], dp)))
        == JtagTransact(world, dp, request, data)
      ensures clocks == old(clocks) + if ack == ACK_OK then count + 34 else index + 4
    {
      hide Total, Flat, Step, BitsOf, ValueOf, Decode, AckBits, UpdateDp;
      ghost var lens := DrLens(count, index, 35);
      ghost var sent := [] + Repeat(tdi, index);
      ShiftHeld(index, base, lens, load, []);
      ack := ShiftHeader(request, base, lens, load, sent);
      AckOfLoad(world, dp, load, index);
      if ack != ACK_OK {
        result := data;
        TransactRefused(world, base.ir[index], dp, request, data);
        tms := true;
        ScanStep(world, chain, base, lens, load, sent + Header(request), tms, tdi);
        TckCycle();
      } else {
        result := ShiftAccepted(request, data, base, load, sent, dp);
      }
    }

    /** jtag_transfer: one DPACC or APACC scan of the selected device is one transaction of its debug port. Which
        of the two it is, the device's real instruction register decides, not the request. */
    method Transfer(request: byte, data: word, idleCycles: nat) returns (ack: nat, result: word)
      requires Configured() && chain.state == RunTestIdle && index < count
      requires Selected(chain, index, AccessInstruction(request))
      modifies `tck, `tms, `tdi, `chain, `clocks
      ensures Configured()
      ensures chain == old(chain).(dp := old(chain).dp[index := chain.dp[index]], path := chain.path)
      ensures Reply(ack, result, chain.dp[index]) == JtagTransact(world, old(chain).dp[index], request, data)
      ensures clocks == old(clocks) + idleCycles + if ack == ACK_OK then count + 39 else index + 9
    {
      hide Total, Step, BitsOf, DrLoad, Decode, AckBits, UpdateDp, JtagTransact, Scanning;
      ghost var start, dp := chain, chain.dp[index];
      AccessLoad(world, chain.ir[index], chain.idcode[index], dp, request);
      ghost var load := BeginDrScan(35);
      ack, result := ShiftAccess(request, data, Captured(start, index), load, dp);
      EndDrScan();
      tdi := true;
      IdleCycles(idleCycles);
    }

    /** The bypass bits, then the 32 bits of the selected device, leaving Shift-DR with the last of them. */
    method ShiftIdcode(ghost base: Chain, ghost load: seq<bool>) returns (idcode: word)
      requires index < count == |base.ir| == |base.idcode| && !tms && chain.state == ShiftDr
      requires Shifting(base, DrLens(count, index, 32), load, []) && |load| == count + 31
      requires load[index..index + 32] == BitsOf(base.idcode[index], 32)
      modifies `tck, `tms, `chain, `clocks
      ensures chain == base.(state := Exit1Dr, path := chain.path) && |chain.path| == count && tms
      ensures idcode == base.idcode[index] && clocks == old(clocks) + index + 32
    {
      hide Total, Flat, Step, BitsOf, ValueOf, Pow2;
      ghost var lens := DrLens(count, index, 32);
      ghost var sent := [] + Repeat(tdi, index);
      ShiftHeld(index, base, lens, load, []);
      var value := ReadBits(31, base, lens, load, sent);
      tms := true;
      ScanStep(world, chain, base, lens, load, sent + Repeat(tdi, 31), tms, tdi);
      var bit := TdoCycle();
      IdcodeOfLoad(base.idcode[index], load, index);
      idcode := value + bit * Pow2(31);
    }

    /** The DR scan of JTAG_IDCODE. */
    method ReadIdcode() returns (idcode: word)
      requires Configured() && chain.state == RunTestIdle && index < count
      requires Selected(chain, index, IdCode)
      modifies `tck, `tms, `chain, `clocks
      ensures Configured() && idcode == chain.idcode[index]
      ensures chain == old(chain).(path := chain.path)
      ensures clocks == old(clocks) + index + 37
    {
      hide Total, Step, BitsOf, Scanning;
      ghost var start := chain;
      ghost var load := BeginDrScan(32);
      idcode := ShiftIdcode(Captured(start, index), load);
      EndDrScan();
      assert chain.dp == start.dp;
    }

    /** JTAG_IDCODE of a device whose instruction register can hold the instruction. */
    method Idcode() returns (idcode: word)
      requires Configured() && chain.state == RunTestIdle && index < count && chain.irLen[index] >= 4
      modifies `tck, `tms, `tdi, `chain, `clocks
      ensures Configured() && idcode == old(chain.idcode[index])
      ensures chain == old(chain).(ir := InstructionsFor(chain.irLen, index, IR_IDCODE), path := chain.path)
      ensures clocks == old(clocks) + 43 + Total(chain.irLen) + index
    {
      SelectedAfterSetIr(chain, index, IR_IDCODE);
      SetIr(IR_IDCODE);
      idcode := ReadIdcode();
    }

    /** JTAG_Configure, from the byte after the command id on. The tables are filled as the lengths come in, so a
        command that is cut short leaves the new count with only some of its lengths. */
    method Configure(request: Ring) returns (error: Option<Error>, status: byte, rest: Ring)
      requires request.Valid()
      requires irLength.Length == irBefore.Length == irAfter.Length == MAX_DEVICES
      requires irLength != irBefore && irBefore != irAfter && irLength != irAfter
      modifies `count, irLength, irBefore, irAfter
      ensures rest.Valid() && rest.cap == request.cap
      ensures request.items == [] ==> error == Some(MsgSize) && unchanged(`count, irLength, irBefore, irAfter)
      ensures request.items != [] && request.items[0] > MAX_DEVICES ==>
        var n := request.items[0];
        var claimed := request.Get(1).value.1.GetClaimed(n);
        && unchanged(`count, irLength, irBefore, irAfter)
        && if claimed.None? then error == Some(MsgSize)
           else error == None && status == RESPONSE_ERROR && rest == claimed.value.1
      ensures request.items != [] && request.items[0] <= MAX_DEVICES ==>
        var n, lens := request.items[0], request.items[1..];
        && count == n && error == (if |lens| < n then Some(MsgSize) else None)
        && (forall k :: 0 <= k < n && k < |lens| ==> irLength[k] == lens[k] && irBefore[k] == Total(lens[..k]))
        && (error == None ==>
          && status == RESPONSE_OK && rest == request.(got := request.got + 1 + n, items := lens[n..])
          && (forall k :: 0 <= k < n ==> irAfter[k] == Total(lens[..n][k + 1..]))
          && (chain.Valid() && chain.irLen == lens[..n] ==> Configured()))
    {
      status, rest := RESPONSE_OK, request;
      var got := rest.Get(1);
      if got.None? {
        return Some(MsgSize), status, rest;
      }
      var n;
      n, rest := got.value.0[0], got.value.1;
      if n > MAX_DEVICES {
        got := rest.GetClaimed(n);
        if got.None? {
          return Some(MsgSize), status, rest;
        }
        return None, RESPONSE_ERROR, got.value.1;
      }
      ghost var lens := request.items[1..];
      count := n;
      var sum: nat := 0;
      for i := 0 to n
        invariant count == n && i <= |lens| && sum == Total(lens[..i])
        invariant rest == request.(got := request.got + 1 + i, items := lens[i..])
        invariant forall k :: 0 <= k < i ==> irLength[k] == lens[k] && irBefore[k] == Total(lens[..k])
      {
        got := rest.Get(1);
        if got.None? {
          return Some(MsgSize), status, rest;
        }
        assert lens[i..][..1][0] == lens[i] && lens[i..][1..] == lens[i + 1..];
        TotalAt(lens, i);
        rest := got.value.1;
        irBefore[i] := sum;
        sum := sum + got.value.0[0];
        irLength[i] := got.value.0[0];
      }
      FillAfter(lens[..n], sum);
      PrefixTotals(lens, n);
      error := None;
    }

    /** The second loop: what lies after each TAP. */
    method FillAfter(ghost lens: seq<byte>, total: nat)
      requires irLength.Length == irBefore.Length == irAfter.Length == MAX_DEVICES
      requires irLength != irBefore && irBefore != irAfter && irLength != irAfter
      requires count == |lens| <= MAX_DEVICES && total == Total(lens)
      requires forall k :: 0 <= k < count ==> irLength[k] == lens[k]
      modifies irAfter
      ensures forall k :: 0 <= k < count ==> irAfter[k] == Total(lens[k + 1..])
    {
      var sum := total;
      assert lens[0..] == lens;
      for i := 0 to count
        invariant sum == Total(lens[i..])
        invariant forall k :: 0 <= k < i ==> irAfter[k] == Total(lens[k + 1..])
      {
        assert lens[i..][1..] == lens[i + 1..];
        sum := sum - irLength[i];
        irAfter[i] := sum;
      }
    }
  }
}
