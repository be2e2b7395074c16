/** JTAG_Sequence and SWD_Sequence as commands of the dispatcher: whatever port is selected and whatever the target
    answers, each takes exactly the bytes the host encoded, so batches of them stay in step. */
module SequenceFraming {
  import opened Bits
  import opened RingBuffer
  import opened SequenceCodec
  import opened Status
  import opened Dispatcher
  import opened DispatchProof
  import DebugPort
  import JtagSequence
  import SwdSequence
  import SwdTarget
  import TapChain

  /** The far end of the wires, and the port that is selected. */
  datatype Wires = Wires(w: DebugPort.World, jtag: bool, swd: bool, chain: TapChain.Chain, target: SwdTarget.Target)

  function StatusOf(selected: bool, seqs: seq<Sequence>): (status: byte) {
    if selected || |seqs| == 0 then RESPONSE_OK else RESPONSE_ERROR
  }

  /** What a complete command comes to; None if it is cut short. */
  function Run(s: Wires, id: byte, bytes: seq<byte>): (r: Option<(Wires, seq<byte>, seq<byte>)>)
    ensures r.Some? ==> |r.value.1| <= |bytes| && r.value.2 != []
  {
    if id == JtagSequence.CMD_JTAG_SEQUENCE then
      var p := Parse(bytes, true);
      if p.None? then None else
      var run := RunAll(JtagSequence.Run(s.w, s.jtag), s.chain, p.value.0);
      Some((s.(chain := run.0), p.value.1, [id, StatusOf(s.jtag, p.value.0)] + run.1))
    else if id == SwdSequence.CMD_SWD_SEQUENCE then
      var p := Parse(bytes, false);
      if p.None? then None else
      var run := RunAll(SwdSequence.Run(s.w, s.swd), s.target, p.value.0);
      Some((s.(target := run.0), p.value.1, [id, StatusOf(s.swd, p.value.0)] + run.1))
    else None
  }

  /** What SequencePort.HandleJtagSequence and SequencePort.HandleSwdSequence do. Of a command that fails only the error
      is modelled here, not how far it has come. */
  function Handle(s: Wires, id: byte, request: Ring, response: Ring): (r: Handled<Wires>) {
    var run := Run(s, id, request.items);
    if run.None? then Refused(s, MsgSize) else
    var (s1, rest, reply) := run.value;
    if |response.items| + |reply| > response.cap then Refused(s, NoBufs)
    else Handled(s1, request.(got := request.got + |request.items| - |rest|, items := rest),
      response.(items := response.items + reply))
  }

  function Effects(s: Wires, cmd: Command): (e: Option<Effect<Wires>>) {
    var run := Run(s, cmd.id, cmd.payload);
    if run.None? then None else Some(Effect(run.value.0, [], run.value.2))
  }

  lemma HandleOrderly()
    ensures Orderly(Handle)
  {
    hide Run;
  }

  /** The command a host sends for these sequences. */
  function CommandFor(duplex: bool, seqs: seq<Sequence>): (cmd: Command)
    requires |seqs| < 0x100
  {
    Command(
      if duplex then JtagSequence.CMD_JTAG_SEQUENCE else SwdSequence.CMD_SWD_SEQUENCE, [|seqs|] + EncodeAll(seqs), 0)
  }

  lemma ParseEncoded(seqs: seq<Sequence>, duplex: bool, rest: seq<byte>)
    requires |seqs| < 0x100 && forall s <- seqs :: |s.data| == Carried(s.head, duplex)
    ensures Parse([|seqs|] + EncodeAll(seqs) + rest, duplex) == Some((seqs, rest))
  {
    hide Split, EncodeAll, Carried;
    var items := [|seqs|] + EncodeAll(seqs) + rest;
    assert items[0] == |seqs|;
    assert items[1..] == EncodeAll(seqs) + rest;
    SplitEncoded(seqs, rest, duplex);
  }

  /** Bytes that follow do not matter. */
  lemma RunEncoded(s: Wires, duplex: bool, seqs: seq<Sequence>, rest: seq<byte>)
    requires |seqs| < 0x100 && forall s <- seqs :: |s.data| == Carried(s.head, duplex)
    ensures var cmd := CommandFor(duplex, seqs);
      var r, alone := Run(s, cmd.id, cmd.payload + rest), Run(s, cmd.id, cmd.payload);
      r.Some? && alone.Some? && r.value == (alone.value.0, rest, alone.value.2)
  {
    hide RunAll, Parse, EncodeAll, JtagSequence.Run, SwdSequence.Run;
    var cmd := CommandFor(duplex, seqs);
    ParseEncoded(seqs, duplex, rest);
    ParseEncoded(seqs, duplex, []);
    assert cmd.payload + [] == cmd.payload;
  }

  /** The dispatcher's condition on its handlers holds. */
  lemma SequenceProper(duplex: bool, seqs: seq<Sequence>)
    requires |seqs| < 0x100 && forall s <- seqs :: |s.data| == Carried(s.head, duplex)
    ensures Proper(Handle, Effects, CommandFor(duplex, seqs))
  {
    hide Run, EncodeAll;
    var cmd := CommandFor(duplex, seqs);
    forall s: Wires, request: Ring, response: Ring, rest: seq<byte> |
      && request.Valid() && request.items == cmd.payload + rest && request.Room(cmd.room) && request.cap < 0x1_0000
      && response.Valid() && response.got == 0
      ensures Does(Handle(s, cmd.id, request, response), Effects(s, cmd), cmd, request, response, rest)
    {
      RunEncoded(s, duplex, seqs, rest);
      assert rest + [] == rest;
    }
  }

  datatype RawSent = Sent(duplex: bool, seqs: seq<Sequence>)

  /** One command, with every sequence as long as its first byte says. */
  type Sent = c: RawSent | |c.seqs| < 0x100 && forall s <- c.seqs :: |s.data| == Carried(s.head, c.duplex)
    witness RawSent.Sent(true, [])

  function Commands(sent: seq<Sent>): (cmds: seq<Command>)
    ensures |cmds| == |sent|
    ensures forall i :: 0 <= i < |sent| ==> cmds[i] == CommandFor(sent[i].duplex, sent[i].seqs)
  {
    if sent == [] then [] else [CommandFor(sent[0].duplex, sent[0].seqs)] + Commands(sent[1..])
  }

  lemma {:induction false} NoRoomWanted(sent: seq<Sent>)
    ensures RoomOf(Commands(sent)) == 0
  {
    if sent != [] {
      NoRoomWanted(sent[1..]);
    }
  }

  /** A batch of sequence commands of either kind, on any port, is carried out as the list of its commands, and not a
      byte of the request is left over or taken from what follows. */
  lemma BatchOfSequences(d: Dispatch<Wires>, sent: seq<Sent>, rest: seq<byte>)
    requires 1 <= |sent| <= 256 && Ready(d, 0)
    requires d.request.items == EncodePacket(Batch(false, Commands(sent))) + rest
    ensures Orderly(Handle)
    ensures var a := After(d, rest, RunStream(Effects, d.state, [Batch(false, Commands(sent))]));
      if a.None? then Loop(Handle, d, 1, false).Failed? else Loop(Handle, d, 1, false) == Done(a.value)
  {
    hide Handle, EncodePacket, RunStream, Proper, Orderly;
    var cmds := Commands(sent);
    var p := Batch(false, cmds);
    forall cmd | cmd in cmds
      ensures Proper(Handle, Effects, cmd)
    {
      var i :| 0 <= i < |cmds| && cmds[i] == cmd;
      SequenceProper(sent[i].duplex, sent[i].seqs);
    }
    assert EncodeStream([p]) == EncodePacket(p);
    NoRoomWanted(sent);
    assert RoomOfAll([p]) == RoomOf(CommandsOf(p)) + RoomOfAll([p][1..]) == 0;
    HandleOrderly();
    StreamRuns(Handle, Effects, d, [p], rest);
  }
}
