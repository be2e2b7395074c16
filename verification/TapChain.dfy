/** A chain of TAPs as section 6.1 of IEEE 1149.1-2001 specifies it, each TAP in front of a JTAG-DP (chapter B3 of
    ARM IHI 0031). TAP 0 is the one nearest the probe's TDO pin. This is the target the JTAG driver is proved
    against; it knows nothing of the driver. */
module TapChain {
  import opened Bits
  import opened DebugPort

  datatype TapState =
    | TestLogicReset | RunTestIdle
    | SelectDr | CaptureDr | ShiftDr | Exit1Dr | PauseDr | Exit2Dr | UpdateDr
    | SelectIr | CaptureIr | ShiftIr | Exit1Ir | PauseIr | Exit2Ir | UpdateIr

  function NextState(s: TapState, tms: bool): (n: TapState) {
    match s
    case TestLogicReset => if tms then TestLogicReset else RunTestIdle
    case RunTestIdle => if tms then SelectDr else RunTestIdle
    case SelectDr => if tms then SelectIr else CaptureDr
    case CaptureDr => if tms then Exit1Dr else ShiftDr
    case ShiftDr => if tms then Exit1Dr else ShiftDr
    case Exit1Dr => if tms then UpdateDr else PauseDr
    case PauseDr => if tms then Exit2Dr else PauseDr
    case Exit2Dr => if tms then UpdateDr else ShiftDr
    case UpdateDr => if tms then SelectDr else RunTestIdle
    case SelectIr => if tms then TestLogicReset else CaptureIr
    case CaptureIr => if tms then Exit1Ir else ShiftIr
    case ShiftIr => if tms then Exit1Ir else ShiftIr
    case Exit1Ir => if tms then UpdateIr else PauseIr
    case PauseIr => if tms then Exit2Ir else PauseIr
    case Exit2Ir => if tms then UpdateIr else ShiftIr
    case UpdateIr => if tms then SelectDr else RunTestIdle
  }

  /** The ways the levels of TMS lead: into the shift states, out of them to the update states, and to reset. */
  lemma Ways(s: TapState)
    ensures var n := NextState;
      && n(n(n(RunTestIdle, true), false), false) == ShiftDr && n(ShiftDr, false) == ShiftDr
      && n(n(n(n(RunTestIdle, true), true), false), false) == ShiftIr && n(ShiftIr, false) == ShiftIr
      && n(n(ShiftDr, true), true) == UpdateDr && n(n(ShiftIr, true), true) == UpdateIr
      && n(UpdateDr, false) == n(UpdateIr, false) == n(RunTestIdle, false) == RunTestIdle
      && n(n(n(n(n(s, true), true), true), true), true) == TestLogicReset
  {
  }

  /** All TAPs share TMS and TCK, so they share their state. path holds, TAP by TAP, the shift stage that lies
      between TDI and TDO; ir the instruction latched in each TAP. */
  datatype Chain = Chain(
    state: TapState,
    irLen: seq<nat>,
    irCapture: seq<seq<bool>>,
    idcode: seq<word>,
    ir: seq<seq<bool>>,
    path: seq<seq<bool>>,
    dp: seq<Dp>)
  {
    ghost predicate Valid() {
      && |irLen| == |irCapture| == |idcode| == |ir| == |dp|
      && (forall i :: 0 <= i < |irLen| ==> irLen[i] > 0)
      && (forall i :: 0 <= i < |irLen| ==> |ir[i]| == irLen[i])
      && (forall i :: 0 <= i < |irLen| ==> |irCapture[i]| == irLen[i])
    }
  }

  const IR_ABORT: nat := 0x08
  const IR_DPACC: nat := 0x0a
  const IR_APACC: nat := 0x0b
  const IR_IDCODE: nat := 0x0e

  datatype Instruction = Bypass | Abort | DpAcc | ApAcc | IdCode

  /** All ones is BYPASS, and so is every instruction the TAP does not implement. */
  function Decode(ir: seq<bool>): (r: Instruction) {
    if forall i :: 0 <= i < |ir| ==> ir[i] then Bypass
    else if ValueOf(ir) == IR_ABORT then Abort
    else if ValueOf(ir) == IR_DPACC then DpAcc
    else if ValueOf(ir) == IR_APACC then ApAcc
    else if ValueOf(ir) == IR_IDCODE then IdCode
    else Bypass
  }

  predicate SelectsAccess(ir: seq<bool>) {
    Decode(ir) == DpAcc || Decode(ir) == ApAcc
  }

  /** JTAG shifts OK out as 0b010 and WAIT as 0b001, the low two bits the other way round from SWD. */
  function AckBits(ack: ack3): (bits: seq<bool>)
    ensures |bits| == 3
  {
    [ack / 2 % 2 == 1, ack % 2 == 1, ack / 4 % 2 == 1]
  }

  /** What the selected data register loads in Capture-DR. */
  function DrLoad(w: World, ir: seq<bool>, idcode: word, dp: Dp): (bits: seq<bool>)
    ensures bits != []
  {
    match Decode(ir)
    case Bypass => [false]
    case Abort => Repeat(false, 35)
    case DpAcc | ApAcc => AckBits(w.ack(dp.attempts)) + BitsOf(dp.readBuf, 32)
    case IdCode => BitsOf(idcode, 32)
  }

  function CaptureDp(ir: seq<bool>, dp: Dp): (r: Dp) {
    if SelectsAccess(ir) then dp.(attempts := dp.attempts + 1) else dp
  }

  /** The access a 35-bit DPACC or APACC register holds at Update-DR. */
  function Latched(ir: seq<bool>, dr: seq<bool>): (a: Access)
    requires |dr| == 35
  {
    Access(Decode(ir) == ApAcc, dr[0], dr[1], dr[2], if dr[0] then 0 else WordOf(dr[3..]))
  }

  /** At Update-DR an access is performed only if the same scan captured OK. */
  function UpdateDp(w: World, ir: seq<bool>, dr: seq<bool>, dp: Dp): (r: Dp) {
    if SelectsAccess(ir) && |dr| == 35 && dp.attempts > 0 && w.ack(dp.attempts - 1) == ACK_OK
    then JtagAccept(w, dp, Latched(ir, dr))
    else dp
  }

  /** One clock of shifting: every stage moves towards TDO and takes the bit its neighbour lets go. */
  function ShiftPath(path: seq<seq<bool>>, tdi: bool): (r: seq<seq<bool>>)
    ensures |r| == |path|
    ensures forall i :: 0 <= i < |path| ==> |r[i]| == |path[i]|
  {
    seq(|path|, i requires 0 <= i < |path| =>
      if path[i] == [] then [] else path[i][1..] + [if i + 1 < |path| then Head(path[i + 1]) else tdi])
  }

  predicate Head(stage: seq<bool>) {
    stage != [] && stage[0]
  }

  /** The TDO pin after a falling edge of TCK. */
  predicate Tdo(c: Chain) {
    c.path != [] && Head(c.path[0])
  }

  /** A rising edge of TCK, with the action of the state it leaves. */
  function Step(w: World, c: Chain, tms: bool, tdi: bool): (r: Chain)
  {
    var acted :=
      match c.state
      case TestLogicReset => c.(ir := seq(|c.irLen|, i requires 0 <= i < |c.irLen| => BitsOf(IR_IDCODE, c.irLen[i])))
      case CaptureIr => c.(path := c.irCapture)
      case UpdateIr => c.(ir := c.path)
      case CaptureDr => CaptureChain(w, c)
      case UpdateDr => UpdateChain(w, c)
      case ShiftIr | ShiftDr => c.(path := ShiftPath(c.path, tdi))
      case _ => c;
    acted.(state := NextState(c.state, tms))
  }

  function CaptureChain(w: World, c: Chain): (r: Chain) {
    if |c.ir| == |c.dp| == |c.idcode| then
      c.(path := seq(|c.ir|, i requires 0 <= i < |c.ir| => DrLoad(w, c.ir[i], c.idcode[i], c.dp[i])),
         dp := seq(|c.ir|, i requires 0 <= i < |c.ir| => CaptureDp(c.ir[i], c.dp[i])))
    else c
  }

  function UpdateChain(w: World, c: Chain): (r: Chain) {
    if |c.ir| == |c.dp| == |c.path| then
      c.(dp := seq(|c.ir|, i requires 0 <= i < |c.ir| => UpdateDp(w, c.ir[i], c.path[i], c.dp[i])))
    else c
  }

  // The chain as one long shift register.

  function Flat(path: seq<seq<bool>>): (bits: seq<bool>) {
    if path == [] then [] else path[0] + Flat(path[1..])
  }

  function Total(lens: seq<nat>): (n: nat) {
    if lens == [] then 0 else lens[0] + Total(lens[1..])
  }

  ghost predicate HasLens(path: seq<seq<bool>>, lens: seq<nat>) {
    |path| == |lens| && forall i :: 0 <= i < |path| ==> |path[i]| == lens[i]
  }

  lemma {:induction false} TotalSplit(a: seq<nat>, b: seq<nat>)
    ensures Total(a + b) == Total(a) + Total(b)
  {
    if a == [] {
      assert a + b == b;
    } else {
      TotalSplit(a[1..], b);
      assert (a + b)[1..] == a[1..] + b;
    }
  }

  lemma TotalAt(lens: seq<nat>, i: nat)
    requires i < |lens|
    ensures Total(lens) == Total(lens[..i]) + lens[i] + Total(lens[i + 1..])
    ensures Total(lens[..i + 1]) == Total(lens[..i]) + lens[i]
  {
    assert lens == lens[..i] + lens[i..];
    TotalSplit(lens[..i], lens[i..]);
    assert lens[..i + 1] == lens[..i] + [lens[i]];
    TotalSplit(lens[..i], [lens[i]]);
  }

  lemma {:induction false} FlatLength(path: seq<seq<bool>>, lens: seq<nat>)
    requires HasLens(path, lens)
    ensures |Flat(path)| == Total(lens)
  {
    if path != [] {
      FlatLength(path[1..], lens[1..]);
    }
  }

  /** Where TAP i's stage sits in the long register. */
  lemma {:induction false} FlatSlice(path: seq<seq<bool>>, lens: seq<nat>, i: nat)
    requires HasLens(path, lens) && i < |path|
    ensures Total(lens[..i]) + lens[i] <= |Flat(path)|
    ensures Flat(path)[Total(lens[..i])..Total(lens[..i]) + lens[i]] == path[i]
  {
    if i > 0 {
      FlatSlice(path[1..], lens[1..], i - 1);
      assert lens[..i][1..] == lens[1..][..i - 1];
      var o := Total(lens[1..][..i - 1]);
      assert Flat(path)[lens[0] + o..lens[0] + o + lens[i]] == Flat(path[1..])[o..o + lens[i]];
    }
  }

  /** A clock of the chain is a clock of the long register: it loses its first bit and gains TDI. */
  lemma {:induction false} FlatShift(path: seq<seq<bool>>, tdi: bool)
    requires path != [] && forall i :: 0 <= i < |path| ==> path[i] != []
    ensures Flat(path) != [] && Head(path[0]) == Flat(path)[0]
    ensures Flat(ShiftPath(path, tdi)) == Flat(path)[1..] + [tdi]
  {
    var r := ShiftPath(path, tdi);
    if |path| == 1 {
      assert path[1..] == [] && r[1..] == [];
    } else {
      FlatShift(path[1..], tdi);
      assert r[1..] == ShiftPath(path[1..], tdi);
      Carried(path[0], Head(path[1]), Flat(path[1..]), tdi);
    }
  }

  lemma Carried(stage: seq<bool>, head: bool, more: seq<bool>, tdi: bool)
    requires stage != [] && more != [] && more[0] == head
    ensures stage[1..] + [head] + (more[1..] + [tdi]) == (stage + more)[1..] + [tdi]
  {
    assert more == [head] + more[1..];
  }
}
