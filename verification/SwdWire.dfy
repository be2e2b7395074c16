/** The SWD side of the probe, clock by clock (firmware/src/dap/commands_swd.c and swd_transfer in
    firmware/src/dap/commands_transfer.c). */
module SwdWire {
  import opened Bits
  import opened DebugPort
  import opened SwdTarget

  /** The eight bits of a packet request. */
  function PacketBits(request: byte): (bits: seq<bool>)
    ensures |bits| == 8
  {
    [true, IsAp(request), IsRead(request), A2(request), A3(request),
     (request + request / 2 + request / 4 + request / 8) % 2 == 1, false, true]
  }

  lemma OddOfFour(a: bool, b: bool, c: bool, d: bool)
    ensures Odd([a, b, c, d]) == (a != (b != (c != d)))
  {
    assert [a, b, c, d][1..] == [b, c, d] && [b, c, d][1..] == [c, d] && [c, d][1..] == [d];
    assert Odd([d]) == d && Odd([c, d]) == (c != d) && Odd([b, c, d]) == (b != (c != d));
  }

  lemma SumParity(a: nat, b: nat, c: nat, d: nat)
    ensures ((a + b + c + d) % 2 == 1) == ((a % 2 == 1) != ((b % 2 == 1) != ((c % 2 == 1) != (d % 2 == 1))))
  {
    AddParity(a + b + c, d);
    AddParity(a + b, c);
    AddParity(a, b);
  }

  lemma AddParity(x: nat, y: nat)
    ensures ((x + y) % 2 == 1) == ((x % 2 == 1) != (y % 2 == 1))
  {
  }

  /** The parity bit comes from a sum of unmasked shifts of the request; it is the parity of its low four bits. */
  lemma PacketWellFormed(request: byte, data: word)
    ensures WellFormed(PacketBits(request))
    ensures HeaderAccess(PacketBits(request), data) == AccessOf(request, data)
  {
    hide Odd;
    SumParity(request, request / 2, request / 4, request / 8);
    var p := PacketBits(request);
    assert p[1..5] == [p[1], p[2], p[3], p[4]];
    OddOfFour(IsAp(request), IsRead(request), A2(request), A3(request));
  }

  /** Start, APnDP, RnW, A2, A3, their parity, stop and park, in that order, of the byte a host sends. */
  lemma PacketInOrder(ap: bool, rnw: bool, a2: bool, a3: bool, high: nat)
    requires high < 16
    ensures PacketBits(ToInt(ap) + 2 * ToInt(rnw) + 4 * ToInt(a2) + 8 * ToInt(a3) + 16 * high)
      == [true, ap, rnw, a2, a3, ap != (rnw != (a2 != a3)), false, true]
  {
    var request := ToInt(ap) + 2 * ToInt(rnw) + 4 * ToInt(a2) + 8 * ToInt(a3) + 16 * high;
    RequestDecoded(ap, rnw, a2, a3, high, 0);
    SumParity(request, request / 2, request / 4, request / 8);
  }

  lemma PacketReads(request: byte)
    ensures PacketBits(request)[2] == IsRead(request)
  {
  }

  /** A word is written exactly if the bit behind it makes the number of ones even. */
  lemma WrittenIffEven(w: World, t: Target, v: word, parity: bool)
    requires |t.header| == 8 && !t.header[2]
    ensures var r := Received(w, t, BitsOf(v, 32) + [parity]);
      r.dp == if parity == Odd(BitsOf(v, 32)) then SwdAccept(w, t.dp, HeaderAccess(t.header, v)) else t.dp
  {
    hide SwdAccept;
    OddSnoc(BitsOf(v, 32), parity);
    assert (BitsOf(v, 32) + [parity])[..32] == BitsOf(v, 32);
    WordRoundTrip(v);
  }

  /** While a packet comes in, every clock moves its next bit across. */
  lemma PacketStep(w: World, t: Target, base: Target, packet: seq<bool>, k: nat)
    requires |packet| == 8 && packet[0] && WellFormed(packet) && k < 8
    requires base.phase == Idle
    requires t == base.(phase := if k == 0 then Idle else Packet(packet[..k]))
    ensures k < 7 ==> Step(w, t, packet[k]) == base.(phase := Packet(packet[..k + 1]))
    ensures k == 7 ==> Step(w, t, packet[k]) == base.(phase := TurnToTarget(base.turn), header := packet)
  {
    hide Odd;
    assert packet[..k] + [packet[k]] == packet[..k + 1];
    assert packet[..8] == packet && [packet[0]] == packet[..1];
  }

  /** The target still has out to drive, then turns the line round. */
  ghost predicate Releasing(t: Target, base: Target, tail: Tail, left: nat) {
    && t == base.(phase := t.phase)
    && if left == 0 then t.phase == AfterTurn(tail)
       else if left <= base.turn then t.phase == TurnToHost(left, tail)
       else t.phase.Drive? && t.phase.tail == tail && |t.phase.out| + base.turn == left
  }

  lemma ReleaseStep(w: World, t: Target, base: Target, tail: Tail, left: nat, line: bool)
    requires base.turn > 0 && left > 0 && Releasing(t, base, tail, left)
    ensures Releasing(Step(w, t, line), base, tail, left - 1)
  {
  }

  lemma ReleaseStart(t: Target, base: Target, out: seq<bool>, tail: Tail)
    requires t == base.(phase := DrivePhase(out, tail, base.turn)) && base.turn > 0
    ensures Releasing(t, base, tail, |out| + base.turn)
  {
  }

  /** The sub-structure dap->swd with the SWD pins and the target they are wired to. contention records whether
      both ends have ever driven SWDIO on the same clock. */
  class SwdPort {
    const world: World
    var turnaround: nat
    var dataPhase: bool

    var swclk: bool
    var output: bool
    var swdio: bool
    var target: Target
    ghost var clocks: nat
    ghost var contention: bool

    /** SWD_Configure agrees with the target. */
    ghost predicate Matched()
      reads this
    {
      turnaround == target.turn > 0 && dataPhase == target.dataPhase
    }

    /** The bus is idle and the host's. */
    ghost predicate Ready()
      reads this
    {
      Matched() && target.phase == Idle && output
    }

    method SetSwclk(level: bool)
      modifies `swclk, `target, `clocks, `contention
      ensures swclk == level
      ensures var edge := level && !old(swclk);
        && target == (if edge then Step(world, old(target), Line(old(target), output, swdio)) else old(target))
        && clocks == old(clocks) + ToInt(edge)
        && contention == (old(contention) || (edge && output && Drives(old(target))))
    {
      if level && !swclk {
        contention := contention || (output && Drives(target));
        target := Step(world, target, Line(target, output, swdio));
        clocks := clocks + 1;
      }
      swclk := level;
    }

    method ReadCycle() returns (bit: nat)
      modifies `swclk, `target, `clocks, `contention
      ensures bit == ToInt(Line(old(target), output, swdio))
      ensures target == Step(world, old(target), Line(old(target), output, swdio)) && clocks == old(clocks) + 1
      ensures contention == (old(contention) || (output && Drives(old(target))))
    {
      SetSwclk(false);
      bit := ToInt(Line(target, output, swdio));
      SetSwclk(true);
    }

    method WriteCycle(bit: nat)
      modifies `swclk, `swdio, `target, `clocks, `contention
      ensures swdio == (bit % 2 == 1)
      ensures target == Step(world, old(target), Line(old(target), output, swdio)) && clocks == old(clocks) + 1
      ensures contention == (old(contention) || (output && Drives(old(target))))
    {
      swdio := bit % 2 == 1;
      SetSwclk(false);
      SetSwclk(true);
    }

    method SwclkCycle()
      modifies `swclk, `target, `clocks, `contention
      ensures target == Step(world, old(target), Line(old(target), output, swdio)) && clocks == old(clocks) + 1
      ensures contention == (old(contention) || (output && Drives(old(target))))
    {
      SetSwclk(false);
      SetSwclk(true);
    }

    /** The next bit of a packet request. */
    method SendBit(bit: nat, ghost base: Target, ghost packet: seq<bool>, ghost k: nat)
      requires output && |packet| == 8 && packet[0] && WellFormed(packet) && k < 8 && packet[k] == (bit % 2 == 1)
      requires base.phase == Idle && target == base.(phase := if k == 0 then Idle else Packet(packet[..k]))
      modifies `swclk, `swdio, `target, `clocks, `contention
      ensures target == if k < 7 then base.(phase := Packet(packet[..k + 1]))
        else base.(phase := TurnToTarget(base.turn), header := packet)
      ensures contention == old(contention) && clocks == old(clocks) + 1
    {
      hide Step, WellFormed;
      PacketStep(world, target, base, packet, k);
      WriteCycle(bit);
    }

    /** The 8-bit packet request. */
    method SendPacket(request: byte)
      requires Ready()
      modifies `swclk, `swdio, `target, `clocks, `contention
      ensures target == old(target).(phase := TurnToTarget(target.turn), header := PacketBits(request))
      ensures contention == old(contention) && clocks == old(clocks) + 8
    {
      hide WellFormed;
      ghost var base, packet := target, PacketBits(request);
      PacketWellFormed(request, 0);
      var apNdp, rNw, a2, a3: nat := request, request / 2, request / 4, request / 8;
      var parity := apNdp + rNw + a2 + a3;
      SendBit(1, base, packet, 0);
      SendBit(apNdp, base, packet, 1);
      SendBit(rNw, base, packet, 2);
      SendBit(a2, base, packet, 3);
      SendBit(a3, base, packet, 4);
      SendBit(parity, base, packet, 5);
      SendBit(0, base, packet, 6);
      SendBit(1, base, packet, 7);
    }

    /** Turnaround from host to target. */
    method TurnIn()
      requires !output && target.phase == TurnToTarget(turnaround) && turnaround > 0 && |target.header| == 8
      modifies `swclk, `target, `clocks, `contention
      ensures target == Answer(world, old(target))
      ensures contention == old(contention) && clocks == old(clocks) + turnaround
    {
      for i := 0 to turnaround
        invariant target == if i < turnaround then old(target).(phase := TurnToTarget(turnaround - i))
                            else Answer(world, old(target))
        invariant contention == old(contention) && clocks == old(clocks) + i
      {
        SwclkCycle();
      }
    }

    /** n clocks during which the host leaves the line alone. */
    method FreeClocks(n: nat, ghost base: Target, ghost tail: Tail, ghost left: nat)
      requires !output && base.turn > 0 && Releasing(target, base, tail, left) && n <= left
      modifies `swclk, `target, `clocks, `contention
      ensures Releasing(target, base, tail, left - n)
      ensures contention == old(contention) && clocks == old(clocks) + n
    {
      hide Releasing, Step;
      for i := 0 to n
        invariant Releasing(target, base, tail, left - i)
        invariant contention == old(contention) && clocks == old(clocks) + i
      {
        ReleaseStep(world, target, base, tail, left - i, Line(target, output, swdio));
        SwclkCycle();
      }
    }

    /** The three acknowledge bits. */
    method ReadAck(ghost sent: ack3, ghost data: seq<bool>, ghost tail: Tail) returns (ack: nat)
      requires !output && target.turn > 0 && target.phase == Drive(BitsOf(sent, 3) + data, tail)
      modifies `swclk, `target, `clocks, `contention
      ensures ack == sent
      ensures target == old(target).(phase := DrivePhase(data, tail, target.turn))
      ensures contention == old(contention) && clocks == old(clocks) + 3
    {
      ghost var bits := BitsOf(sent, 3);
      assert (bits + data)[1..] == bits[1..] + data;
      assert (bits[1..] + data)[1..] == bits[2..] + data;
      assert (bits[2..] + data)[1..] == data;
      var bit := ReadCycle();
      ack := bit;
      bit := ReadCycle();
      ack := ack + 2 * bit;
      bit := ReadCycle();
      ack := ack + 4 * bit;
    }

    /** Packet request, turnaround and acknowledge. */
    method Request(request: byte) returns (ack: nat)
      requires Ready()
      modifies `swclk, `swdio, `output, `target, `clocks, `contention
      ensures Matched() && !output && ack == world.ack(old(target).dp.attempts)
      ensures target.header == PacketBits(request)
      ensures var answer := AnswerOf(world, target.header, old(target).dp, dataPhase);
        target == Answer(world, old(target).(header := target.header)).(
          phase := DrivePhase(answer.0, answer.1, target.turn))
      ensures contention == old(contention) && clocks == old(clocks) + 11 + turnaround
    {
      hide Odd, ValueOf, BitsOf, ReadFrame, SwdAccept, WellFormed, Step;
      ghost var dp := target.dp;
      PacketWellFormed(request, 0);
      SendPacket(request);
      output := false;
      ghost var answer := AnswerOf(world, target.header, dp, dataPhase);
      TurnIn();
      ack := ReadAck(world.ack(dp.attempts), answer.0, answer.1);
    }

    /** 32 bits and their parity; mismatch tells whether the 33 bits are of odd parity. */
    method ReadData(ghost frame: seq<bool>, ghost tail: Tail) returns (read: word, mismatch: bool)
      requires !output && target.turn > 0 && |frame| == 33 && target.phase == Drive(frame, tail)
      modifies `swclk, `target, `clocks, `contention
      ensures read == WordOf(frame[..32]) && mismatch == Odd(frame)
      ensures target == old(target).(phase := TurnToHost(target.turn, tail))
      ensures contention == old(contention) && clocks == old(clocks) + 33
    {
      hide ValueOf, Pow2, Odd;
      Pow2Of32();
      var value, parity := 0, 0;
      OddEmpty();
      for i := 0 to 32
        invariant target == old(target).(phase := Drive(frame[i..], tail))
        invariant value == ValueOf(frame[..i]) && (parity % 2 == 1) == Odd(frame[..i])
        invariant contention == old(contention) && clocks == old(clocks) + i
      {
        assert frame[i..][1..] == frame[i + 1..] && frame[..i] + [frame[i]] == frame[..i + 1];
        ValueOfSnoc(frame[..i], frame[i]);
        OddSnoc(frame[..i], frame[i]);
        var bit := ReadCycle();
        value := value + bit * Pow2(i);
        parity := parity + bit;
      }
      assert frame == frame[..32] + [frame[32]];
      OddSnoc(frame[..32], frame[32]);
      var parityBit := ReadCycle();
      mismatch := parity % 2 != parityBit;
      read := value;
    }

    /** 32 bits and their parity, summed from the whole shifted words in 32-bit arithmetic. */
    method WriteData(data: word)
      requires output && target.phase == Receive([]) && |target.header| == 8
      modifies `swclk, `swdio, `target, `clocks, `contention
      ensures target ==
        old(target.(phase := Idle, dp := SwdAccept(world, target.dp, HeaderAccess(target.header, data))))
      ensures contention == old(contention) && clocks == old(clocks) + 33
    {
      hide Odd, BitsOf, ValueOf;
      ghost var bits := BitsOf(data, 32);
      var write, parity: nat := data, 0;
      OddEmpty();
      for i := 0 to 32
        invariant bits[i..] == BitsOf(write, 32 - i)
        invariant target == old(target).(phase := Receive(bits[..i]))
        invariant (parity % 2 == 1) == Odd(bits[..i])
        invariant contention == old(contention) && clocks == old(clocks) + i
      {
        BitsStep(write, 31 - i);
        assert bits[i] == bits[i..][0] && bits[i + 1..] == bits[i..][1..];
        assert bits[..i] + [bits[i]] == bits[..i + 1];
        OddSnoc(bits[..i], bits[i]);
        WriteCycle(write);
        parity := (parity + write) % 0x1_0000_0000;
        write := write / 2;
      }
      ghost var bit := parity % 2 == 1;
      OddSnoc(bits, bit);
      assert bits[..32] == bits && (bits + [bit])[..32] == bits;
      WordRoundTrip(data);
      WriteCycle(parity);
    }

    /** swd_transfer after an OK acknowledge: data phase, idle cycles, line high. */
    method DataPhase(request: byte, data: word, idleCycles: nat, ghost dp: Dp) returns (mismatch: bool, result: word)
      requires Matched() && !output && |target.header| == 8 && target.header == PacketBits(request)
      requires target.phase == DrivePhase(AnswerOf(world, target.header, dp, dataPhase).0,
        AnswerOf(world, target.header, dp, dataPhase).1, target.turn)
      requires world.ack(dp.attempts) == ACK_OK
      requires IsRead(request) ==> target.dp == SwdTransact(world, dp, request, data).dp
      requires !IsRead(request) ==> target.dp == dp.(attempts := dp.attempts + 1)
      modifies `swclk, `swdio, `output, `target, `clocks, `contention
      ensures Ready() && swdio
      ensures target == old(target).(phase := Idle, dp := target.dp)
      ensures SwdTransact(world, dp, request, data) == Reply(if mismatch then ACK_PARITY else ACK_OK, result, target.dp)
      ensures contention == old(contention) && clocks == old(clocks) + 33 + turnaround + idleCycles
    {
      hide Odd, ValueOf, BitsOf, ReadFrame, SwdAccept, WellFormed, Step, PacketBits;
      PacketWellFormed(request, data);
      PacketWellFormed(request, 0);
      PacketReads(request);
      ghost var base := target;
      mismatch, result := false, data;
      if IsRead(request) {
        result, mismatch := ReadData(ReadFrame(world, dp, AccessOf(request, data)), ToIdle);
        FreeClocks(turnaround, base, ToIdle, turnaround);
        output := true;
      } else {
        FreeClocks(turnaround, base, ToReceive, turnaround);
        output := true;
        WriteData(data);
      }
      IdleCycles(idleCycles);
      swdio := true;
    }

    /** Idle cycles drive the line low; an idle target takes no start bit. */
    method IdleCycles(n: nat)
      requires output && target.phase == Idle
      modifies `swclk, `swdio, `target, `clocks, `contention
      ensures target == old(target) && contention == old(contention) && clocks == old(clocks) + n
    {
      for i := 0 to n
        invariant target == old(target) && contention == old(contention) && clocks == old(clocks) + i
      {
        WriteCycle(0);
      }
    }

    /** swd_transfer after WAIT or FAULT. */
    method RefusedPhase(request: byte, ghost tail: Tail)
      requires Matched() && !output
      requires target.phase ==
        DrivePhase(if dataPhase && IsRead(request) then Repeat(false, 33) else [], tail, target.turn)
      requires tail == if dataPhase && !IsRead(request) then ToSkip else ToIdle
      modifies `swclk, `swdio, `output, `target, `clocks, `contention
      ensures Ready() && swdio
      ensures target == old(target).(phase := Idle)
      ensures contention == old(contention) && clocks == old(clocks) + turnaround + if dataPhase then 33 else 0
    {
      ghost var base := target;
      if dataPhase && IsRead(request) {
        ReleaseStart(target, base, Repeat(false, 33), tail);
        FreeClocks(33, base, tail, 33 + turnaround);
      }
      FreeClocks(turnaround, base, tail, turnaround);
      output := true;
      if dataPhase && !IsRead(request) {
        swdio := false;
        SkipClocks();
      }
      swdio := true;
    }

    /** swd_transfer after any other acknowledge: wait out the longest data phase a target could be driving. */
    method StrayPhase(ghost data: seq<bool>)
      requires Matched() && !output && |data| == 33 && target.phase == DrivePhase(data, ToIdle, target.turn)
      modifies `swclk, `swdio, `output, `target, `clocks, `contention
      ensures Ready() && swdio
      ensures target == old(target).(phase := Idle)
      ensures contention == old(contention) && clocks == old(clocks) + turnaround + 33
    {
      ghost var base := target;
      ReleaseStart(target, base, data, ToIdle);
      FreeClocks(turnaround + 33, base, ToIdle, turnaround + 33);
      output := true;
      swdio := true;
    }

    /** A dummy write data phase: the host drives, the target listens. */
    method SkipClocks()
      requires output && target.phase == Skip(33)
      modifies `swclk, `target, `clocks, `contention
      ensures target == old(target).(phase := Idle) && contention == old(contention) && clocks == old(clocks) + 33
    {
      for i := 0 to 33
        invariant target == old(target).(phase := if i < 33 then Skip(33 - i) else Idle)
        invariant contention == old(contention) && clocks == old(clocks) + i
      {
        SwclkCycle();
      }
    }

    /** swd_transfer: one packet is one transaction of the target's debug port; on no clock of any branch do both
        ends drive the line, and the host is left driving it high after a number of clocks that is fixed by the
        configuration and the acknowledge. */
    method Transfer(request: byte, data: word, idleCycles: nat) returns (ack: nat, result: word)
      requires Ready()
      modifies `swclk, `swdio, `output, `target, `clocks, `contention
      ensures Ready() && swdio
      ensures target == old(target).(dp := target.dp, header := target.header)
      ensures Reply(ack, result, target.dp) == SwdTransact(world, old(target).dp, request, data)
      ensures contention == old(contention)
      ensures var seen := old(world.ack(target.dp.attempts));
        clocks == old(clocks) + 11 + 2 * turnaround +
          (if seen == ACK_OK then 33 + idleCycles
           else if seen == ACK_WAIT || seen == ACK_FAULT then if dataPhase then 33 else 0
           else 33)
    {
      hide Odd, ValueOf, BitsOf, ReadFrame, SwdAccept, WellFormed, Step;
      ghost var dp := target.dp;
      PacketWellFormed(request, 0);
      PacketWellFormed(request, data);
      ack := Request(request);
      ghost var answer := AnswerOf(world, target.header, dp, dataPhase);
      result := data;
      if ack == ACK_OK {
        var mismatch;
        mismatch, result := DataPhase(request, data, idleCycles, dp);
        if mismatch {
          ack := ACK_PARITY;
        }
      } else if ack == ACK_WAIT || ack == ACK_FAULT {
        RefusedPhase(request, answer.1);
      } else {
        StrayPhase(answer.0);
      }
    }
  }
}
