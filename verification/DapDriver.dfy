/** struct dap_driver with the transfer commands of firmware/src/dap/commands_transfer.c, on the pins. Each command
    is proved to do to the debug port of the selected target exactly what its specification on values says. */
module DapDriver {
  import opened Bits
  import opened DebugPort
  import opened RingBuffer
  import opened Status
  import opened TransferSpec
  import opened BlockSpec
  import opened CommandSpec
  import opened TapChain
  import JtagWire
  import SwdWire

  const CMD_JTAG_CONFIGURE: byte := 0x15
  const CMD_JTAG_IDCODE: byte := 0x16
  const BUF_SIZE: nat := 2048

  /** The variables of dap_handle_cmd_transfer. last_ir is kept apart: the specification does not know of it. */
  datatype Locals = Locals(data: word, ack: nat, pending: bool, ackPending: bool, count: nat, done: nat)

  /** How a piece of the command ends: go on, break out of the loop, return an error. */
  datatype Next = Continue | Stop | Fail(error: Error)

  /** The variables of dap_handle_cmd_transfer_block; code is its variable request. */
  datatype BlockLocals = BlockLocals(data: word, ack: nat, count: nat, done: nat, code: byte)

  function BlockEnded(next: Next, b: Block): (r: Ending) {
    match next
    case Continue => Through(b)
    case Stop => Cut(b)
    case Fail(error) => Broken(b, error)
  }

  function Ended(next: Next, e: Engine): (r: Outcome) {
    match next
    case Continue => Going(e)
    case Stop => Stopped(e)
    case Fail(error) => Failed(e, error)
  }

  function InstructionOf(ir: nat): (r: Instruction) {
    if ir == IR_APACC then ApAcc else DpAcc
  }

  function RequestIr(code: byte): (ir: nat) {
    if IsAp(code) then IR_APACC else IR_DPACC
  }

  class Probe {
    const world: World
    const jtag: JtagWire.JtagPort
    const swd: SwdWire.SwdPort
    var port: Port
    var idleCycles: nat
    var waitRetries: nat
    var matchRetries: nat
    var matchMask: word
    var request: Ring
    var response: Ring
    /** the debug ports of the chain when the current command began */
    ghost var others: seq<Dp>

    /** The state dap_reset leaves. */
    constructor (world: World, jtag: JtagWire.JtagPort, swd: SwdWire.SwdPort)
      requires jtag.world == world && swd.world == world
      ensures Valid() && this.world == world && this.jtag == jtag && this.swd == swd
      ensures port == Disabled && idleCycles == 0 && waitRetries == 100 && matchRetries == 0 && matchMask == 0
      ensures request == response == Ring(BUF_SIZE, 0, [])
    {
      this.world, this.jtag, this.swd, others := world, jtag, swd, [];
      port, idleCycles, waitRetries, matchRetries, matchMask := Disabled, 0, 100, 0, 0;
      request, response := Ring(BUF_SIZE, 0, []), Ring(BUF_SIZE, 0, []);
    }

    /** The port that is connected is configured for the target it is wired to, and its bus is idle. */
    ghost predicate Valid()
      reads this, jtag, jtag.irLength, jtag.irBefore, jtag.irAfter, swd
    {
      && jtag.world == world && swd.world == world
      && request.Valid() && response.Valid()
      && (port == Jtag ==> jtag.Configured() && jtag.chain.state == RunTestIdle)
      && (port == Swd ==> swd.Ready())
    }

    /** A JTAG device is selected that has room for the instructions of a JTAG-DP, and no other has been touched. */
    ghost predicate Live()
      reads this, jtag, jtag.irLength, jtag.irBefore, jtag.irAfter, swd
    {
      && Valid() && request.Valid() && response.Valid()
      && (port == Jtag ==>
        && jtag.index < jtag.count && jtag.chain.irLen[jtag.index] >= 4
        && |others| == |jtag.chain.dp| && jtag.chain.dp == others[jtag.index := jtag.chain.dp[jtag.index]])
    }

    ghost function Target(): (dp: Dp)
      reads this, jtag, jtag.irLength, jtag.irBefore, jtag.irAfter, swd
      requires Live()
    {
      if port == Jtag then jtag.chain.dp[jtag.index] else swd.target.dp
    }

    ghost function Cfg(): (c: Config)
      reads this
    {
      Config(world, port, waitRetries, matchRetries)
    }

    ghost function OnBench(): (b: Bench)
      reads this, jtag, swd
    {
      Bench(Cfg(), if port == Jtag then jtag.chain.dp else [swd.target.dp], matchMask)
    }

    ghost function Now(l: Locals): (e: Engine)
      reads this, jtag, jtag.irLength, jtag.irBefore, jtag.irAfter, swd
      requires Live()
    {
      Engine(Target(), l.data, matchMask, l.ack, l.pending, l.ackPending, l.count, l.done, request)
    }

    /** The selected device's real instruction register agrees with the cached value; 0 caches nothing. */
    ghost predicate IrCached(lastIr: nat)
      reads this, jtag, jtag.irLength, jtag.irBefore, jtag.irAfter, swd
      requires Live()
    {
      port == Jtag && lastIr != 0 ==>
        (lastIr == IR_DPACC || lastIr == IR_APACC) && JtagWire.Selected(jtag.chain, jtag.index, InstructionOf(lastIr))
    }

    /** port_transfer. On JTAG the access goes where the real instruction register sends it. */
    method PortTransfer(code: byte, data: word) returns (ack: nat, result: word)
      requires Live()
      requires port == Jtag ==> JtagWire.Selected(jtag.chain, jtag.index, JtagWire.AccessInstruction(code))
      modifies jtag`tck, jtag`tms, jtag`tdi, jtag`chain, jtag`clocks
      modifies swd`swclk, swd`swdio, swd`output, swd`target, swd`clocks, swd`contention
      ensures Live() && jtag.chain.ir == old(jtag.chain.ir) && swd.contention == old(swd.contention)
      ensures Reply(ack, result, Target()) == Retry(world, port, old(Target()), code, data, waitRetries)
    {
      hide JtagTransact, SwdTransact, Decode;
      ack, result := ACK_FAULT, data;
      var i := 0;
      while i < waitRetries + 1
        invariant 0 <= i <= waitRetries + 1 && (port == Disabled ==> ack == ACK_FAULT)
        invariant Live() && jtag.chain.ir == old(jtag.chain.ir) && swd.contention == old(swd.contention)
        invariant i <= waitRetries ==>
          Retry(world, port, Target(), code, result, waitRetries - i)
            == Retry(world, port, old(Target()), code, data, waitRetries)
        invariant i == waitRetries + 1 ==>
          Reply(ack, result, Target()) == Retry(world, port, old(Target()), code, data, waitRetries)
      {
        ghost var before, sent := Target(), result;
        if port == Jtag {
          ack, result := jtag.Transfer(code, result, idleCycles);
        } else if port == Swd {
          ack, result := swd.Transfer(code, result, idleCycles);
        }
        assert Reply(ack, result, Target()) == Transact(world, port, before, code, sent);
        if ack != ACK_WAIT {
          break;
        }
        i := i + 1;
      }
    }

    /** port_set_ir. A null last_ir is lastIr == 0 with the result dropped. */
    method PortSetIr(lastIr: nat, desired: nat) returns (newIr: nat)
      requires Live() && IrCached(lastIr) && (desired == IR_DPACC || desired == IR_APACC)
      modifies jtag`tck, jtag`tms, jtag`tdi, jtag`chain, jtag`clocks
      ensures Live() && Target() == old(Target())
      ensures IrCached(newIr)
      ensures port == Jtag ==> newIr == desired && JtagWire.Selected(jtag.chain, jtag.index, InstructionOf(desired))
    {
      newIr := lastIr;
      if port == Jtag && lastIr != desired {
        newIr := desired;
        JtagWire.SelectedAfterSetIr(jtag.chain, jtag.index, desired);
        jtag.SetIr(desired);
      }
    }

    /** port_transfer into transfer_ack and transfer_data, with the instruction register seen to first. */
    method Exchange(code: byte, l: Locals, lastIr: nat) returns (r: Locals, newIr: nat)
      requires Live() && IrCached(lastIr)
      modifies jtag`tck, jtag`tms, jtag`tdi, jtag`chain, jtag`clocks
      modifies swd`swclk, swd`swdio, swd`output, swd`target, swd`clocks, swd`contention
      ensures Live() && IrCached(newIr) && swd.contention == old(swd.contention)
      ensures Now(r) == Wire(Cfg(), old(Now(l)), code)
    {
      hide Retry, AccessOf;
      newIr := PortSetIr(lastIr, RequestIr(code));
      var ack, data := PortTransfer(code, l.data);
      r := l.(ack := ack, data := data);
    }

    /** The next request and its operand. */
    method FetchRequest(l: Locals) returns (code: byte, next: Next, r: Locals)
      requires Live() && l.count > 0
      modifies this`request
      ensures Live() && (code, Ended(next, Now(r))) == Fetch(old(Now(l)))
    {
      hide JtagWire.JtagPort.Configured, SwdWire.SwdPort.Ready;
      code, r := 0, l;
      var got := request.Get(1);
      if got.None? {
        next := Fail(MsgSize);
        return;
      }
      code, request := got.value.0[0], got.value.1;
      if CarriesData(code) {
        var operand := request.GetClaimed(4);
        if operand.None? {
          next := Fail(MsgSize);
          return;
        }
        request := operand.value.1;
        r := r.(data := FromLe32(operand.value.0));
      }
      r := r.(count := l.count - 1);
      next := Continue;
    }

    /** ring_buf_put_le32 on the request buffer. */
    method AppendWord(l: Locals) returns (next: Next)
      requires Live()
      modifies this`request
      ensures Live() && Ended(next, Now(l)) == Append(old(Now(l)))
    {
      var put := request.PutClaimed(Le32(l.data));
      if put.None? {
        next := Fail(NoBufs);
      } else {
        request := put.value;
        next := Continue;
      }
    }

    method CollectPending(l: Locals, lastIr: nat) returns (next: Next, r: Locals, newIr: nat)
      requires Live() && IrCached(lastIr)
      modifies this`request
      modifies jtag`tck, jtag`tms, jtag`tdi, jtag`chain, jtag`clocks
      modifies swd`swclk, swd`swdio, swd`output, swd`target, swd`clocks, swd`contention
      ensures Live() && IrCached(newIr) && swd.contention == old(swd.contention)
      ensures Ended(next, Now(r)) == Collect(Cfg(), old(Now(l)))
    {
      hide Retry, AccessOf;
      next, r, newIr := Continue, l, lastIr;
      if l.pending {
        r, newIr := Exchange(RDBUFF_READ, l, lastIr);
        r := r.(pending := false);
        if r.ack != ACK_OK {
          next := Stop;
        } else {
          next := AppendWord(r);
        }
      }
    }

    /** The instruction register suits the register a request addresses. */
    ghost predicate Aimed(code: byte)
      reads this, jtag, jtag.irLength, jtag.irBefore, jtag.irAfter, swd
    {
      Live() && (port == Jtag ==> JtagWire.Selected(jtag.chain, jtag.index, JtagWire.AccessInstruction(code)))
    }

    /** port_transfer into transfer_ack and transfer_data. */
    method BareExchange(code: byte, l: Locals) returns (r: Locals)
      requires Aimed(code)
      modifies jtag`tck, jtag`tms, jtag`tdi, jtag`chain, jtag`clocks
      modifies swd`swclk, swd`swdio, swd`output, swd`target, swd`clocks, swd`contention
      ensures Aimed(code) && jtag.chain.ir == old(jtag.chain.ir) && swd.contention == old(swd.contention)
      ensures Now(r) == Wire(Cfg(), old(Now(l)), code)
    {
      hide Retry;
      var ack, data := PortTransfer(code, l.data);
      r := l.(ack := ack, data := data);
    }

    /** The loop over match_retries; the instruction register has been seen to before. */
    method PollValue(code: byte, value: word, l: Locals) returns (r: Locals)
      requires Aimed(code)
      modifies jtag`tck, jtag`tms, jtag`tdi, jtag`chain, jtag`clocks
      modifies swd`swclk, swd`swdio, swd`output, swd`target, swd`clocks, swd`contention
      ensures Aimed(code) && jtag.chain.ir == old(jtag.chain.ir) && swd.contention == old(swd.contention)
      ensures Now(r) == Poll(Cfg(), old(Now(l)), code, value, matchRetries)
    {
      hide Retry, AccessOf, And, Valid;
      r := l;
      var i := 0;
      while i < matchRetries + 1
        invariant 0 <= i <= matchRetries + 1
        invariant Aimed(code) && jtag.chain.ir == old(jtag.chain.ir) && swd.contention == old(swd.contention)
        invariant i <= matchRetries ==>
          Poll(Cfg(), Now(r), code, value, matchRetries - i) == Poll(Cfg(), old(Now(l)), code, value, matchRetries)
        invariant i == matchRetries + 1 ==> Now(r) == Poll(Cfg(), old(Now(l)), code, value, matchRetries)
      {
        r := BareExchange(code, r);
        if r.ack != ACK_OK || And(r.data, matchMask) == value {
          break;
        }
        i := i + 1;
      }
    }

    /** Does the last value read match? */
    method Judge(value: word, l: Locals) returns (next: Next, r: Locals)
      requires Live()
      ensures Ended(next, Now(r)) == Judged(Now(l), value)
    {
      hide And, Valid;
      next, r := Continue, l;
      if And(r.data, matchMask) != value {
        r := r.(ack := r.ack + VALUE_MISMATCH);
      }
      if r.ack != ACK_OK {
        next := Stop;
      } else {
        r := r.(ackPending := false);
      }
    }

    method ReadMatching(code: byte, l: Locals, lastIr: nat) returns (next: Next, r: Locals, newIr: nat)
      requires Live() && IrCached(lastIr)
      modifies jtag`tck, jtag`tms, jtag`tdi, jtag`chain, jtag`clocks
      modifies swd`swclk, swd`swdio, swd`output, swd`target, swd`clocks, swd`contention
      ensures Live() && IrCached(newIr) && swd.contention == old(swd.contention)
      ensures Ended(next, Now(r)) == MatchRead(Cfg(), old(Now(l)), code)
    {
      hide Retry, AccessOf, And, Poll, Judged, Valid;
      var value := l.data;
      next, r := Continue, l;
      newIr := PortSetIr(lastIr, RequestIr(code));
      if port == Jtag || IsAp(code) {
        r := BareExchange(code, r);
        if r.ack != ACK_OK {
          next := Stop;
          return;
        }
      }
      r := PollValue(code, value, r);
      next, r := Judge(value, r);
    }

    method ReadNormal(code: byte, l: Locals, lastIr: nat) returns (next: Next, r: Locals, newIr: nat)
      requires Live() && IrCached(lastIr)
      modifies this`request
      modifies jtag`tck, jtag`tms, jtag`tdi, jtag`chain, jtag`clocks
      modifies swd`swclk, swd`swdio, swd`output, swd`target, swd`clocks, swd`contention
      ensures Live() && IrCached(newIr) && swd.contention == old(swd.contention)
      ensures Ended(next, Now(r)) == NormalRead(Cfg(), old(Now(l)), code)
    {
      hide Retry, AccessOf, Valid, Append;
      next := Continue;
      r, newIr := Exchange(code, l, lastIr);
      if r.ack != ACK_OK {
        next := Stop;
      } else if port == Swd && !IsAp(code) {
        next := AppendWord(r);
        if next == Continue {
          r := r.(ackPending := false);
        }
      } else {
        r := r.(pending := true, ackPending := false);
      }
    }

    method PerformWrite(code: byte, l: Locals, lastIr: nat) returns (next: Next, r: Locals, newIr: nat)
      requires Live() && IrCached(lastIr)
      modifies this`matchMask
      modifies jtag`tck, jtag`tms, jtag`tdi, jtag`chain, jtag`clocks
      modifies swd`swclk, swd`swdio, swd`output, swd`target, swd`clocks, swd`contention
      ensures Live() && IrCached(newIr) && swd.contention == old(swd.contention)
      ensures Ended(next, Now(r)) == Write(Cfg(), old(Now(l)), code)
    {
      hide Retry, AccessOf;
      next, r, newIr := Continue, l, lastIr;
      if IsMatchMask(code) {
        matchMask := l.data;
        r := r.(ack := ACK_OK);
      } else {
        r, newIr := Exchange(code, r, newIr);
        if r.ack != ACK_OK {
          next := Stop;
        } else {
          r := r.(ackPending := true);
        }
      }
    }

    method ExecuteRequest(code: byte, l: Locals, lastIr: nat) returns (next: Next, r: Locals, newIr: nat)
      requires Live() && IrCached(lastIr)
      modifies this`request, this`matchMask
      modifies jtag`tck, jtag`tms, jtag`tdi, jtag`chain, jtag`clocks
      modifies swd`swclk, swd`swdio, swd`output, swd`target, swd`clocks, swd`contention
      ensures Live() && IrCached(newIr) && swd.contention == old(swd.contention)
      ensures Ended(next, Now(r)) == Execute(Cfg(), old(Now(l)), code)
    {
      hide MatchRead, NormalRead, Write, Valid;
      if !IsRead(code) {
        next, r, newIr := PerformWrite(code, l, lastIr);
      } else if IsMatchValue(code) {
        next, r, newIr := ReadMatching(code, l, lastIr);
      } else {
        next, r, newIr := ReadNormal(code, l, lastIr);
      }
      if next == Continue {
        r := r.(done := r.done + 1);
      }
    }

    /** One turn of the loop over the requests. */
    method PerformRequest(l: Locals, lastIr: nat) returns (next: Next, r: Locals, newIr: nat)
      requires Live() && IrCached(lastIr) && l.count > 0
      modifies this`request, this`matchMask
      modifies jtag`tck, jtag`tms, jtag`tdi, jtag`chain, jtag`clocks
      modifies swd`swclk, swd`swdio, swd`output, swd`target, swd`clocks, swd`contention
      ensures Live() && IrCached(newIr) && swd.contention == old(swd.contention)
      ensures Ended(next, Now(r)) == Iteration(Cfg(), old(Now(l)))
    {
      hide Fetch, Collect, Execute, Valid;
      var code;
      newIr := lastIr;
      code, next, r := FetchRequest(l);
      if next == Continue {
        next, r, newIr := CollectPending(r, newIr);
        if next == Continue {
          next, r, newIr := ExecuteRequest(code, r, newIr);
        }
      }
    }

    method PerformRequests(l: Locals) returns (next: Next, r: Locals, newIr: nat)
      requires Live()
      modifies this`request, this`matchMask
      modifies jtag`tck, jtag`tms, jtag`tdi, jtag`chain, jtag`clocks
      modifies swd`swclk, swd`swdio, swd`output, swd`target, swd`clocks, swd`contention
      ensures Live() && IrCached(newIr) && swd.contention == old(swd.contention)
      ensures Ended(next, Now(r)) == Loop(Cfg(), old(Now(l)))
    {
      hide Iteration, Valid;
      next, r, newIr := Continue, l, 0;
      while r.count > 0
        invariant Live() && IrCached(newIr) && swd.contention == old(swd.contention) && next == Continue
        invariant Loop(Cfg(), Now(r)) == Loop(Cfg(), old(Now(l)))
        decreases r.count
      {
        next, r, newIr := PerformRequest(r, newIr);
        if next != Continue {
          return;
        }
      }
    }

    /** Takes count cancelled requests off the request buffer. */
    method DrainRequests(count: nat) returns (ok: bool)
      requires request.Valid()
      modifies this`request
      ensures request.Valid() && ok == Drain(old(request), count).Some?
      ensures ok ==> request == Drain(old(request), count).value
    {
      var left := count;
      while left > 0
        invariant 0 <= left <= count && request.Valid()
        invariant Drain(request, left) == Drain(old(request), count)
      {
        left := left - 1;
        var got := request.Get(1);
        if got.None? {
          return false;
        }
        request := got.value.1;
        if CarriesData(got.value.0[0]) {
          var operand := request.Get(4);
          if operand.None? {
            return false;
          }
          request := operand.value.1;
        }
      }
      ok := true;
    }

    /** The read of RDBUFF that brings the last acknowledge, and the last word if one is pending. */
    method ReadLast(l: Locals, lastIr: nat) returns (error: Option<Error>, r: Locals)
      requires Live() && IrCached(lastIr)
      modifies this`request
      modifies jtag`tck, jtag`tms, jtag`tdi, jtag`chain, jtag`clocks
      modifies swd`swclk, swd`swdio, swd`output, swd`target, swd`clocks, swd`contention
      ensures Live() && swd.contention == old(swd.contention)
      ensures var e := Wire(Cfg(), old(Now(l)), RDBUFF_READ);
        var f := if e.ack == ACK_OK && e.pending then Append(e) else Going(e);
        && Target() == f.e.dp && matchMask == f.e.mask
        && if f.Failed? then error == Some(f.error) else error == None && Now(r) == f.e
    {
      hide Wire, AccessOf;
      var newIr;
      r, newIr := Exchange(RDBUFF_READ, l, lastIr);
      error := None;
      if r.ack == ACK_OK && r.pending {
        var next := AppendWord(r);
        if next != Continue {
          error := Some(NoBufs);
        }
      }
    }

    /** After the requests: drain, then the last acknowledge and read. */
    method FinishRequests(l: Locals, lastIr: nat) returns (error: Option<Error>, r: Locals)
      requires Live() && IrCached(lastIr)
      modifies this`request
      modifies jtag`tck, jtag`tms, jtag`tdi, jtag`chain, jtag`clocks
      modifies swd`swclk, swd`swdio, swd`output, swd`target, swd`clocks, swd`contention
      ensures Live() && swd.contention == old(swd.contention)
      ensures var f := Finish(Cfg(), old(Now(l)));
        && Target() == f.e.dp && matchMask == f.e.mask
        && if f.Failed? then error == Some(f.error) else error == None && Now(r) == f.e
    {
      hide Wire, AccessOf, Drain, Append;
      r := l;
      var ok := DrainRequests(l.count);
      if !ok {
        error := Some(MsgSize);
        return;
      }
      error := None;
      r := r.(count := 0);
      if r.ack == ACK_OK && (r.pending || r.ackPending) {
        error, r := ReadLast(r, lastIr);
      }
    }

    /** Everything after the index and count have been read and found usable. */
    method RunRequests(count: nat) returns (error: Option<Error>, r: Locals)
      requires Live() && port != Disabled
      modifies this`request, this`matchMask
      modifies jtag`tck, jtag`tms, jtag`tdi, jtag`chain, jtag`clocks
      modifies swd`swclk, swd`swdio, swd`output, swd`target, swd`clocks, swd`contention
      ensures Live() && swd.contention == old(swd.contention)
      ensures var f := Run(Cfg(), old(Now(Locals(0, 0, false, false, count, 0))));
        && Target() == f.e.dp && matchMask == f.e.mask
        && if f.Failed? then error == Some(f.error) else error == None && Now(r) == f.e
    {
      hide Loop, Finish, Valid;
      var next, newIr;
      next, r, newIr := PerformRequests(Locals(0, 0, false, false, count, 0));
      if next.Fail? {
        error := Some(next.error);
      } else {
        error, r := FinishRequests(r, newIr);
      }
    }

    /** The port is connected, and on JTAG the index names a configured device. */
    ghost predicate Selectable(index: nat)
      reads this, jtag
    {
      port == Swd || (port == Jtag && index < jtag.count)
    }

    /** The command id, with room claimed for the count and the acknowledge. */
    method ReserveReport() returns (ok: bool)
      requires response.Valid()
      modifies this`response
      ensures response.Valid() && ok == Reserved(old(response)).Some?
      ensures ok ==> response == Reserved(old(response)).value
    {
      var put := response.Put([CMD_TRANSFER]);
      if put.None? {
        return false;
      }
      response := put.value;
      put := response.PutClaimed([0]);
      if put.None? {
        return false;
      }
      response := put.value;
      put := response.PutClaimed([0]);
      if put.None? {
        return false;
      }
      response := put.value;
      ok := true;
    }

    /** Fills in the two claimed bytes. */
    method Report(at: nat, done: nat, ack: nat)
      requires response.Valid() && at + 2 <= |response.items|
      modifies this`response
      ensures response == old(response.(items := TransferReported(response.items, at, done, ack)))
      ensures response.Valid()
    {
      response := response.(items := response.items[at := done % 0x100][at + 1 := ack % 0x100]);
    }

    /** The device index and the number of requests. */
    method TakeHeader() returns (ok: bool, index: byte, count: byte)
      requires request.Valid()
      modifies this`request
      ensures request.Valid() && ok == (|old(request.items)| >= 2)
      ensures ok ==>
        index == old(request.items)[0] && count == old(request.items)[1] && request == Skip(old(request), 2)
    {
      ok, index, count := false, 0, 0;
      var got := request.Get(1);
      if got.None? {
        return;
      }
      index, request := got.value.0[0], got.value.1;
      got := request.Get(1);
      if got.None? {
        return;
      }
      count, request := got.value.0[0], got.value.1;
      ok := true;
    }

    /** r says how a command ends. */
    ghost predicate EndsAs(error: Option<Error>, r: Result)
      reads this, jtag, swd
    {
      match r
      case Done(b, req, resp) => error == None && OnBench() == b && request == req && response == resp
      case Fault(b, e) => error == Some(e) && OnBench() == b
    }

    /** The device a command is for; its debug port is the one the bench has chosen. */
    method SelectDevice(index: byte) returns (ghost i: nat)
      requires Valid() && Selectable(index)
      requires port == Jtag ==> jtag.chain.irLen[index] >= 4
      modifies this`others, jtag`index
      ensures Live() && OnBench() == old(OnBench()) && Chosen(OnBench(), index) == Some(i)
      ensures OnBench().dps[i] == Target() && Stands(OnBench(), i)
    {
      i := 0;
      if port == Jtag {
        jtag.index := index;
        i := index;
      }
      others := jtag.chain.dp;
      assert Valid();
      if port == Jtag {
        assert others[jtag.index := jtag.chain.dp[jtag.index]] == others == jtag.chain.dp;
      }
    }

    /** b is the bench as it was when its port i was selected. */
    ghost predicate Stands(b: Bench, i: nat)
      reads this, jtag
    {
      && b.c == Cfg() && i < |b.dps| && (port == Jtag ==> b.dps == others && i == jtag.index)
      && (port != Jtag ==> |b.dps| == 1)
    }

    /** Nothing but the selected port has changed. */
    lemma OnBenchNow(b: Bench, i: nat)
      requires Live() && Stands(b, i)
      ensures OnBench() == b.(dps := b.dps[i := Target()], mask := matchMask)
    {
    }

    /** DAP_Transfer on a port that cannot take it. */
    method RefuseTransfer(at: nat, index: byte, count: byte) returns (error: Option<Error>)
      requires Valid() && at + 2 <= |response.items|
      requires port == Disabled || (port == Jtag && index >= jtag.count)
      modifies this`request, this`response
      ensures Valid() && EndsAs(error, TransferBody(OnBench(), old(request), old(response), at, index, count))
    {
      hide Drain, TransferReported;
      Report(at, 0, 0);
      var ok := DrainRequests(count);
      error := if ok then None else Some(MsgSize);
    }

    /** And on one that can. */
    method AcceptTransfer(at: nat, index: byte, count: byte) returns (error: Option<Error>)
      requires Valid() && at + 2 <= |response.items| && Selectable(index)
      requires port == Jtag ==> jtag.chain.irLen[index] >= 4
      modifies this`request, this`response, this`matchMask, this`others, jtag`index
      modifies jtag`tck, jtag`tms, jtag`tdi, jtag`chain, jtag`clocks
      modifies swd`swclk, swd`swdio, swd`output, swd`target, swd`clocks, swd`contention
      ensures Valid() && swd.contention == old(swd.contention)
      ensures EndsAs(error, TransferBody(old(OnBench()), old(request), old(response), at, index, count))
    {
      hide Drain, Run, TransferReported;
      ghost var b := OnBench();
      ghost var i := SelectDevice(index);
      var l;
      error, l := RunRequests(count);
      OnBenchNow(b, i);
      if error == None {
        Report(at, l.done, l.ack);
      }
    }

    /** What DAP_Transfer does once its header is in. */
    method RunTransfer(at: nat, index: byte, count: byte) returns (error: Option<Error>)
      requires Valid() && at + 2 <= |response.items|
      requires port == Jtag && index < jtag.count ==> jtag.chain.irLen[index] >= 4
      modifies this`request, this`response, this`matchMask, this`others, jtag`index
      modifies jtag`tck, jtag`tms, jtag`tdi, jtag`chain, jtag`clocks
      modifies swd`swclk, swd`swdio, swd`output, swd`target, swd`clocks, swd`contention
      ensures Valid() && swd.contention == old(swd.contention)
      ensures EndsAs(error, TransferBody(old(OnBench()), old(request), old(response), at, index, count))
    {
      hide TransferBody;
      if port == Disabled || (port == Jtag && index >= jtag.count) {
        error := RefuseTransfer(at, index, count);
      } else {
        error := AcceptTransfer(at, index, count);
      }
    }

    /** dap_handle_cmd_transfer, from the byte after the command id on. */
    method HandleTransfer() returns (error: Option<Error>)
      requires Valid()
      requires request.items != [] && port == Jtag && request.items[0] < jtag.count ==>
        jtag.chain.irLen[request.items[0]] >= 4
      modifies this`request, this`response, this`matchMask, this`others, jtag`index
      modifies jtag`tck, jtag`tms, jtag`tdi, jtag`chain, jtag`clocks
      modifies swd`swclk, swd`swdio, swd`output, swd`target, swd`clocks, swd`contention
      ensures Valid() && swd.contention == old(swd.contention)
      ensures EndsAs(error, TransferCommand(old(OnBench()), old(request), old(response)))
    {
      hide TransferBody;
      var at := |response.items| + 1;
      var ok := ReserveReport();
      if !ok {
        return Some(NoBufs);
      }
      var index, count;
      ok, index, count := TakeHeader();
      if !ok {
        return Some(MsgSize);
      }
      error := RunTransfer(at, index, count);
    }

    /** dap_handle_cmd_transfer_configure, from the byte after the command id on. */
    method HandleTransferConfigure() returns (error: Option<Error>)
      requires request.Valid() && response.Valid()
      modifies this`request, this`response, this`idleCycles, this`waitRetries, this`matchRetries
      ensures EndsAs(error, ConfigureCommand(old(OnBench()), old(request), old(response)))
      ensures old(request.items) != [] ==> idleCycles == old(request.items)[0]
    {
      var one := request.Get(1);
      if one.None? {
        return Some(MsgSize);
      }
      idleCycles, request := one.value.0[0], one.value.1;
      var two := request.GetClaimed(2);
      if two.None? {
        return Some(MsgSize);
      }
      waitRetries, request := FromLe16(two.value.0), two.value.1;
      two := request.GetClaimed(2);
      if two.None? {
        return Some(MsgSize);
      }
      matchRetries, request := FromLe16(two.value.0), two.value.1;
      var put := response.Put([CMD_TRANSFER_CONFIGURE, RESPONSE_OK]);
      if put.None? {
        return Some(NoBufs);
      }
      response := put.value;
      error := None;
    }

    // DAP_TransferBlock.

    ghost function BlockNow(l: BlockLocals): (b: Block)
      reads this, jtag, jtag.irLength, jtag.irBefore, jtag.irAfter, swd
      requires Live()
    {
      Block(Target(), l.data, l.ack, l.count, l.done, l.code, request, response)
    }

    method BlockExchange(l: BlockLocals) returns (r: BlockLocals)
      requires Aimed(l.code)
      modifies jtag`tck, jtag`tms, jtag`tdi, jtag`chain, jtag`clocks
      modifies swd`swclk, swd`swdio, swd`output, swd`target, swd`clocks, swd`contention
      ensures Aimed(l.code) && swd.contention == old(swd.contention)
      ensures BlockNow(r) == BlockWire(Cfg(), old(BlockNow(l)))
    {
      hide Retry;
      var ack, data := PortTransfer(l.code, l.data);
      r := l.(ack := ack, data := data);
    }

    method PutBlockWord(l: BlockLocals) returns (next: Next, r: BlockLocals)
      requires Aimed(l.code)
      modifies this`response
      ensures Aimed(r.code)
      ensures BlockEnded(next, BlockNow(r)) ==
        var b := old(BlockNow(l));
        var put := b.response.Put(Le32(b.data));
        if put.None? then Broken(b, NoBufs) else Through(b.(response := put.value, done := b.done + 1))
    {
      hide Le32;
      r := l;
      var put := response.Put(Le32(r.data));
      if put.None? {
        return Fail(NoBufs), r;
      }
      response := put.value;
      r := r.(done := r.done + 1);
      next := Continue;
    }

    method ReadBlockWord(l: BlockLocals) returns (next: Next, r: BlockLocals)
      requires Aimed(l.code) && l.count > 0
      modifies this`response
      modifies jtag`tck, jtag`tms, jtag`tdi, jtag`chain, jtag`clocks
      modifies swd`swclk, swd`swdio, swd`output, swd`target, swd`clocks, swd`contention
      ensures Aimed(r.code) && swd.contention == old(swd.contention)
      ensures BlockEnded(next, BlockNow(r)) == ReadTurn(Cfg(), old(BlockNow(l)))
    {
      hide Retry, Le32, Valid, BlockWire;
      r := l.(count := l.count - 1);
      if r.count == 0 && (port == Jtag || IsAp(r.code)) {
        var _ := PortSetIr(RequestIr(r.code), IR_DPACC);
        r := r.(code := RDBUFF_READ);
      }
      r := BlockExchange(r);
      if r.ack != ACK_OK {
        next := Stop;
      } else {
        next, r := PutBlockWord(r);
      }
    }

    method ReadBlockWords(l: BlockLocals) returns (next: Next, r: BlockLocals)
      requires Aimed(l.code)
      modifies this`response
      modifies jtag`tck, jtag`tms, jtag`tdi, jtag`chain, jtag`clocks
      modifies swd`swclk, swd`swdio, swd`output, swd`target, swd`clocks, swd`contention
      ensures Aimed(r.code) && swd.contention == old(swd.contention)
      ensures BlockEnded(next, BlockNow(r)) == ReadBlock(Cfg(), old(BlockNow(l)))
    {
      hide Retry, Valid, ReadTurn;
      next, r := Continue, l;
      if port == Jtag || IsAp(l.code) {
        r := BlockExchange(r);
        if r.ack != ACK_OK {
          return Stop, r;
        }
      }
      while r.count > 0
        invariant Aimed(r.code) && swd.contention == old(swd.contention) && next == Continue
        invariant ReadLoop(Cfg(), BlockNow(r)) == ReadBlock(Cfg(), old(BlockNow(l)))
        decreases r.count
      {
        next, r := ReadBlockWord(r);
        if next != Continue {
          return;
        }
      }
    }

    method WriteBlockWord(l: BlockLocals) returns (next: Next, r: BlockLocals)
      requires Aimed(l.code) && l.count > 0
      modifies this`request
      modifies jtag`tck, jtag`tms, jtag`tdi, jtag`chain, jtag`clocks
      modifies swd`swclk, swd`swdio, swd`output, swd`target, swd`clocks, swd`contention
      ensures Aimed(r.code) && r.code == l.code && swd.contention == old(swd.contention)
      ensures BlockEnded(next, BlockNow(r)) == WriteTurn(Cfg(), old(BlockNow(l)))
    {
      hide Retry, FromLe32;
      r := l.(count := l.count - 1);
      var got := request.Get(4);
      if got.None? {
        return Fail(MsgSize), r;
      }
      request := got.value.1;
      r := BlockExchange(r.(data := FromLe32(got.value.0)));
      if r.ack != ACK_OK {
        return Stop, r;
      }
      r := r.(done := r.done + 1);
      next := Continue;
    }

    method WriteBlockWords(l: BlockLocals) returns (next: Next, r: BlockLocals)
      requires Aimed(l.code)
      modifies this`request
      modifies jtag`tck, jtag`tms, jtag`tdi, jtag`chain, jtag`clocks
      modifies swd`swclk, swd`swdio, swd`output, swd`target, swd`clocks, swd`contention
      ensures Aimed(r.code) && swd.contention == old(swd.contention)
      ensures BlockEnded(next, BlockNow(r)) == WriteBlock(Cfg(), old(BlockNow(l)))
    {
      hide Retry, Valid, WriteTurn;
      next, r := Continue, l;
      while r.count > 0
        invariant Aimed(r.code) && r.code == l.code && swd.contention == old(swd.contention) && next == Continue
        invariant WriteLoop(Cfg(), BlockNow(r)) == WriteLoop(Cfg(), old(BlockNow(l)))
        decreases r.count
      {
        next, r := WriteBlockWord(r);
        if next != Continue {
          return;
        }
      }
      var _ := PortSetIr(RequestIr(r.code), IR_DPACC);
      r := BlockExchange(r.(code := RDBUFF_READ));
    }

    /** Either loop over the words. */
    method TransferWords(l: BlockLocals) returns (next: Next, r: BlockLocals)
      requires Live() && response.Valid()
      modifies this`request, this`response
      modifies jtag`tck, jtag`tms, jtag`tdi, jtag`chain, jtag`clocks
      modifies swd`swclk, swd`swdio, swd`output, swd`target, swd`clocks, swd`contention
      ensures Live() && response.Valid() && swd.contention == old(swd.contention)
      ensures BlockEnded(next, BlockNow(r)) ==
        if IsRead(l.code) then ReadBlock(Cfg(), old(BlockNow(l))) else WriteBlock(Cfg(), old(BlockNow(l)))
    {
      hide ReadBlock, WriteBlock, Valid;
      var _ := PortSetIr(0, RequestIr(l.code));
      if IsRead(l.code) {
        next, r := ReadBlockWords(l);
      } else {
        next, r := WriteBlockWords(l);
      }
    }

    /** Everything after the header has been read and found usable, up to the report. */
    method RunBlockWords(l: BlockLocals) returns (error: Option<Error>, r: BlockLocals)
      requires Live() && response.Valid()
      modifies this`request, this`response
      modifies jtag`tck, jtag`tms, jtag`tdi, jtag`chain, jtag`clocks
      modifies swd`swclk, swd`swdio, swd`output, swd`target, swd`clocks, swd`contention
      ensures Live() && response.Valid() && swd.contention == old(swd.contention)
      ensures var f := RunBlock(Cfg(), old(BlockNow(l)));
        && Target() == f.b.dp
        && if f.Broken? then error == Some(f.error) else error == None && BlockNow(r) == f.b
    {
      hide ReadBlock, WriteBlock, CancelWords, Live;
      var next;
      next, r := TransferWords(l);
      if next.Fail? {
        return Some(next.error), r;
      }
      error := DrainWords(r.count, r.code);
    }

    /** The words of a cancelled write block. */
    method DrainWords(count: nat, code: byte) returns (error: Option<Error>)
      requires request.Valid()
      modifies this`request
      ensures request.Valid() && (old(Live()) ==> Live() && Target() == old(Target()))
      ensures var rest := CancelWords(old(request), count, code);
        if rest.None? then error == Some(MsgSize) else error == None && request == rest.value
    {
      error := None;
      if count > 0 && !IsRead(code) {
        var got := request.GetClaimed(count * 4 % 0x1_0000);
        if got.None? {
          return Some(MsgSize);
        }
        request := got.value.1;
      }
    }

    /** The command id, with room claimed for the count and the acknowledge. */
    method ReserveBlockReport() returns (ok: bool)
      requires response.Valid()
      modifies this`response
      ensures response.Valid() && ok == BlockReserved(old(response)).Some?
      ensures ok ==> response == BlockReserved(old(response)).value
    {
      var put := response.Put([CMD_TRANSFER_BLOCK]);
      if put.None? {
        return false;
      }
      response := put.value;
      put := response.PutClaimed([0, 0]);
      if put.None? {
        return false;
      }
      response := put.value;
      put := response.PutClaimed([0]);
      if put.None? {
        return false;
      }
      response := put.value;
      ok := true;
    }

    /** The device index, the number of words and the request. */
    method TakeBlockHeader() returns (ok: bool, index: byte, count: nat, code: byte)
      requires request.Valid()
      modifies this`request
      ensures request.Valid() && ok == (|old(request.items)| >= 4)
      ensures ok ==>
        && index == old(request.items)[0] && count == FromLe16(old(request.items)[1..3])
        && code == old(request.items)[3] && request == Skip(old(request), 4)
    {
      ok, index, count, code := false, 0, 0, 0;
      var got := request.Get(1);
      if got.None? {
        return;
      }
      index, request := got.value.0[0], got.value.1;
      got := request.Get(2);
      if got.None? {
        return;
      }
      count, request := FromLe16(got.value.0), got.value.1;
      got := request.Get(1);
      if got.None? {
        return;
      }
      code, request := got.value.0[0], got.value.1;
      ok := true;
      assert old(request.items)[1..][..2] == old(request.items)[1..3];
      assert old(request.items)[1..][2..][1..] == old(request.items)[4..];
    }

    /** Fills in the three claimed bytes. */
    method BlockReport(at: nat, done: nat, ack: nat)
      requires response.Valid() && at + 3 <= |response.items|
      modifies this`response
      ensures response == old(response.(items := BlockReported(response.items, at, done, ack)))
      ensures response.Valid()
    {
      response := response.(items := BlockReported(response.items, at, done, ack));
    }

    /** DAP_TransferBlock on a port that cannot take it. */
    method RefuseBlock(at: nat, index: byte, count: nat, code: byte) returns (error: Option<Error>)
      requires Valid() && at + 3 <= |response.items|
      requires port == Disabled || (port == Jtag && index >= jtag.count)
      modifies this`request, this`response
      ensures Valid() && EndsAs(error, BlockBody(OnBench(), old(request), old(response), at, index, count, code))
    {
      hide CancelWords, BlockReported;
      BlockReport(at, 0, 0);
      error := DrainWords(count, code);
    }

    /** And on one that can. */
    method AcceptBlock(at: nat, index: byte, count: nat, code: byte) returns (error: Option<Error>)
      requires Valid() && at + 3 <= |response.items| && Selectable(index)
      requires port == Jtag ==> jtag.chain.irLen[index] >= 4
      modifies this`request, this`response, this`others, jtag`index
      modifies jtag`tck, jtag`tms, jtag`tdi, jtag`chain, jtag`clocks
      modifies swd`swclk, swd`swdio, swd`output, swd`target, swd`clocks, swd`contention
      ensures Valid() && swd.contention == old(swd.contention)
      ensures EndsAs(error, BlockBody(old(OnBench()), old(request), old(response), at, index, count, code))
    {
      hide CancelWords, RunBlock, BlockReported;
      ghost var b := OnBench();
      ghost var i := SelectDevice(index);
      var l;
      error, l := RunBlockWords(BlockLocals(0, 0, count, 0, code));
      OnBenchNow(b, i);
      if error == None {
        BlockReport(at, l.done, l.ack);
      }
    }

    /** What DAP_TransferBlock does once its header is in. */
    method RunBlockTransfer(at: nat, index: byte, count: nat, code: byte) returns (error: Option<Error>)
      requires Valid() && at + 3 <= |response.items|
      requires port == Jtag && index < jtag.count ==> jtag.chain.irLen[index] >= 4
      modifies this`request, this`response, this`others, jtag`index
      modifies jtag`tck, jtag`tms, jtag`tdi, jtag`chain, jtag`clocks
      modifies swd`swclk, swd`swdio, swd`output, swd`target, swd`clocks, swd`contention
      ensures Valid() && swd.contention == old(swd.contention)
      ensures EndsAs(error, BlockBody(old(OnBench()), old(request), old(response), at, index, count, code))
    {
      hide BlockBody;
      if port == Disabled || (port == Jtag && index >= jtag.count) {
        error := RefuseBlock(at, index, count, code);
      } else {
        error := AcceptBlock(at, index, count, code);
      }
    }

    /** dap_handle_cmd_transfer_block, from the byte after the command id on. */
    method HandleTransferBlock() returns (error: Option<Error>)
      requires Valid()
      requires request.items != [] && port == Jtag && request.items[0] < jtag.count ==>
        jtag.chain.irLen[request.items[0]] >= 4
      modifies this`request, this`response, this`others, jtag`index
      modifies jtag`tck, jtag`tms, jtag`tdi, jtag`chain, jtag`clocks
      modifies swd`swclk, swd`swdio, swd`output, swd`target, swd`clocks, swd`contention
      ensures Valid() && swd.contention == old(swd.contention)
      ensures EndsAs(error, BlockCommand(old(OnBench()), old(request), old(response)))
    {
      hide BlockBody;
      var at := |response.items| + 1;
      var ok := ReserveBlockReport();
      if !ok {
        return Some(NoBufs);
      }
      var index, count, code;
      ok, index, count, code := TakeBlockHeader();
      if !ok {
        return Some(MsgSize);
      }
      error := RunBlockTransfer(at, index, count, code);
    }

    // The other commands that concern the chain.

    /** dap_handle_cmd_jtag_idcode, from the byte after the command id on. */
    method HandleIdcode() returns (error: Option<Error>)
      requires Valid()
      requires request.items != [] && port == Jtag && request.items[0] < jtag.count ==>
        jtag.chain.irLen[request.items[0]] >= 4
      modifies this`request, this`response, jtag`index
      modifies jtag`tck, jtag`tms, jtag`tdi, jtag`chain, jtag`clocks
      ensures Valid() && jtag.chain.dp == old(jtag.chain.dp)
      ensures var items := old(request.items);
        if items == [] then error == Some(MsgSize) else
          var index := items[0];
          var known := port == Jtag && index < jtag.count;
          && request == Skip(old(request), 1)
          && (!known ==> jtag.chain == old(jtag.chain))
          && (known ==> jtag.chain.ir == JtagWire.InstructionsFor(old(jtag.chain.irLen), index, IR_IDCODE))
          && error == (if |old(response.items)| + 6 <= response.cap then None else Some(NoBufs))
          && (error == None ==>
            response.items == old(response.items) + [CMD_JTAG_IDCODE, if known then RESPONSE_OK else RESPONSE_ERROR]
              + Le32(if known then old(jtag.chain.idcode)[index] else 0))
    {
      hide Le32, JtagWire.InstructionsFor;
      var got := request.Get(1);
      if got.None? {
        return Some(MsgSize);
      }
      var index;
      index, request := got.value.0[0], got.value.1;
      var status, idcode: word := RESPONSE_OK, 0;
      if port != Jtag || index >= jtag.count {
        status := RESPONSE_ERROR;
      } else {
        jtag.index := index;
        idcode := jtag.Idcode();
      }
      var put := response.Put([CMD_JTAG_IDCODE, status] + Le32(idcode));
      if put.None? {
        return Some(NoBufs);
      }
      assert old(response.items) + ([CMD_JTAG_IDCODE, status] + Le32(idcode))
        == old(response.items) + [CMD_JTAG_IDCODE, status] + Le32(idcode);
      response := put.value;
      error := None;
    }

    /** dap_handle_cmd_jtag_configure, from the byte after the command id on. */
    method HandleJtagConfigure() returns (error: Option<Error>)
      requires request.Valid() && response.Valid()
      requires jtag.irLength.Length == jtag.irBefore.Length == jtag.irAfter.Length == JtagWire.MAX_DEVICES
      requires jtag.irLength != jtag.irBefore && jtag.irBefore != jtag.irAfter && jtag.irLength != jtag.irAfter
      modifies this`request, this`response, jtag`count, jtag.irLength, jtag.irBefore, jtag.irAfter
      ensures var items := old(request.items);
        if items == [] then error == Some(MsgSize) && jtag.count == old(jtag.count) else
          var n, lens := items[0], items[1..];
          if n > JtagWire.MAX_DEVICES then
            var claimed := old(request).Get(1).value.1.GetClaimed(n);
            && unchanged(jtag`count, jtag.irLength, jtag.irBefore, jtag.irAfter)
            && (claimed == None ==> error == Some(MsgSize))
            && (claimed.Some? ==>
              && request == claimed.value.1
              && error == (if |old(response.items)| + 2 <= response.cap then None else Some(NoBufs))
              && (error == None ==> response.items == old(response.items) + [CMD_JTAG_CONFIGURE, RESPONSE_ERROR]))
          else
            && jtag.count == n
            && (|lens| < n ==> error == Some(MsgSize))
            && (|lens| >= n ==>
              && error == (if |old(response.items)| + 2 <= response.cap then None else Some(NoBufs))
              && request.items == lens[n..]
              && (jtag.chain.Valid() && jtag.chain.irLen == lens[..n] ==> jtag.Configured())
              && (error == None ==> response.items == old(response.items) + [CMD_JTAG_CONFIGURE, RESPONSE_OK]))
    {
      var status, rest;
      error, status, rest := jtag.Configure(request);
      request := rest;
      if error.Some? {
        return;
      }
      var put := response.Put([CMD_JTAG_CONFIGURE, status]);
      if put.None? {
        return Some(NoBufs);
      }
      response := put.value;
    }
  }
}
