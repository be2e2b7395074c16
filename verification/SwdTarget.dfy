/** An SWD target, clock by clock, as section B4.2 of ARM IHI 0031 specifies it: packet request, turnaround,
    acknowledge, data phase, even parity. This is what the SWD driver is proved against. */
module SwdTarget {
  import opened Bits
  import opened DebugPort

  /** What follows the turnaround that gives the line back to the host. */
  datatype Tail = ToIdle | ToReceive | ToSkip

  datatype Phase =
    | Idle
    | Packet(got: seq<bool>)
    | TurnToTarget(left: nat)
    | Drive(out: seq<bool>, tail: Tail)
    | TurnToHost(left: nat, tail: Tail)
    | Receive(got: seq<bool>)
    | Skip(left: nat)
    | Deaf

  datatype Target = Target(phase: Phase, header: seq<bool>, dp: Dp, turn: nat, dataPhase: bool)

  /** Start, APnDP, RnW, A2, A3, parity, stop, park. */
  predicate WellFormed(packet: seq<bool>)
    requires |packet| == 8
  {
    packet[0] && packet[5] == Odd(packet[1..5]) && !packet[6] && packet[7]
  }

  function HeaderAccess(header: seq<bool>, data: word): (a: Access)
    requires |header| == 8
  {
    Access(header[1], header[2], header[3], header[4], if header[2] then 0 else data)
  }

  predicate Drives(t: Target) {
    t.phase.Drive? && t.phase.out != []
  }

  /** The line a target sees or a host samples: driven by one side, or pulled up. */
  predicate Line(t: Target, hostDrives: bool, hostBit: bool) {
    if hostDrives then hostBit
    else if Drives(t) then t.phase.out[0]
    else true
  }

  function DrivePhase(out: seq<bool>, tail: Tail, turn: nat): (p: Phase) {
    if out == [] then TurnToHost(turn, tail) else Drive(out, tail)
  }

  function AfterTurn(tail: Tail): (p: Phase) {
    match tail
    case ToIdle => Idle
    case ToReceive => Receive([])
    case ToSkip => Skip(33)
  }

  /** What the target drives once the line is its own, and what it does with the line afterwards. An acknowledge
      that is none of OK, WAIT and FAULT comes from a target gone astray: it is granted a whole data phase. */
  function AnswerOf(w: World, header: seq<bool>, dp: Dp, dataPhase: bool): (r: (seq<bool>, Tail))
    requires |header| == 8
    ensures |r.0| == 0 || |r.0| == 33
  {
    var ack := w.ack(dp.attempts);
    if ack == ACK_OK then
      if header[2] then (ReadFrame(w, dp, HeaderAccess(header, 0)), ToIdle) else ([], ToReceive)
    else if ack == ACK_WAIT || ack == ACK_FAULT then
      if !dataPhase then ([], ToIdle)
      else if header[2] then (Repeat(false, 33), ToIdle)
      else ([], ToSkip)
    else (Repeat(false, 33), ToIdle)
  }

  function Answer(w: World, t: Target): (r: Target)
    requires |t.header| == 8
  {
    var ack := w.ack(t.dp.attempts);
    var tried := t.dp.(attempts := t.dp.attempts + 1);
    var (data, tail) := AnswerOf(w, t.header, t.dp, t.dataPhase);
    t.(phase := Drive(BitsOf(ack, 3) + data, tail),
       dp := if ack == ACK_OK && t.header[2] then SwdAccept(w, tried, HeaderAccess(t.header, 0)) else tried)
  }

  /** A written word is performed only if its parity is right. */
  function Received(w: World, t: Target, got: seq<bool>): (r: Target)
    requires |t.header| == 8 && |got| == 33
  {
    if Odd(got) then t.(phase := Idle)
    else t.(phase := Idle, dp := SwdAccept(w, t.dp, HeaderAccess(t.header, WordOf(got[..32]))))
  }

  /** A rising edge of SWCLK. */
  function Step(w: World, t: Target, line: bool): (r: Target)
  {
    match t.phase
    case Idle => if line then t.(phase := Packet([true])) else t
    case Packet(got) =>
      var g := got + [line];
      if |g| < 8 then t.(phase := Packet(g))
      else if |g| == 8 && WellFormed(g) then t.(phase := TurnToTarget(t.turn), header := g)
      else t.(phase := Deaf)
    case TurnToTarget(left) =>
      if left > 1 then t.(phase := TurnToTarget(left - 1))
      else if |t.header| == 8 then Answer(w, t)
      else t.(phase := Deaf)
    case Drive(out, tail) => if out == [] then t else t.(phase := DrivePhase(out[1..], tail, t.turn))
    case TurnToHost(left, tail) => t.(phase := if left > 1 then TurnToHost(left - 1, tail) else AfterTurn(tail))
    case Receive(got) =>
      var g := got + [line];
      if |g| < 33 then t.(phase := Receive(g))
      else if |g| == 33 && |t.header| == 8 then Received(w, t, g)
      else t.(phase := Deaf)
    case Skip(left) => t.(phase := if left > 1 then Skip(left - 1) else Idle)
    case Deaf => t
  }
}
