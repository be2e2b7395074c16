/** DAP_TransferConfigure, DAP_Transfer and DAP_TransferBlock as whole commands on values: header, body, report and
    error returns of their handlers in firmware/src/dap/commands_transfer.c. */
module CommandSpec {
  import opened Bits
  import opened DebugPort
  import opened RingBuffer
  import opened Status
  import opened TransferSpec
  import opened BlockSpec

  const CMD_TRANSFER_CONFIGURE: byte := 0x04
  const CMD_TRANSFER: byte := 0x05
  const CMD_TRANSFER_BLOCK: byte := 0x06

  /** What the commands act on. dps: the debug ports of the JTAG devices in order, or the one on SWD. */
  datatype Bench = Bench(c: Config, dps: seq<Dp>, mask: word)

  /** The debug port an index selects. SWD has only one and does not look at the index. */
  function Chosen(b: Bench, index: nat): (i: Option<nat>)
    ensures i.Some? ==> i.value < |b.dps| && b.c.port != Disabled
  {
    match b.c.port
    case Disabled => None
    case Jtag => if index < |b.dps| then Some(index) else None
    case Swd => if b.dps != [] then Some(0) else None
  }

  /** A command that succeeds leaves its buffers in a definite state; of one that fails the dispatcher drops them. */
  datatype Result = Done(bench: Bench, request: Ring, response: Ring) | Fault(bench: Bench, error: Error)

  /** The response buffer with the report of DAP_Transfer begun. */
  function Reserved(response: Ring): (r: Option<Ring>)
    requires response.Valid()
    ensures r.Some? ==> r.value.Valid() && r.value == response.(items := response.items + [CMD_TRANSFER, 0, 0])
  {
    var put := response.Put([CMD_TRANSFER]);
    if put.None? then None else
    var count := put.value.PutClaimed([0]);
    if count.None? then None else count.value.PutClaimed([0])
  }

  /** The response buffer with the report of DAP_TransferBlock begun. */
  function BlockReserved(response: Ring): (r: Option<Ring>)
    requires response.Valid()
    ensures r.Some? ==> r.value.Valid() && r.value == response.(items := response.items + [CMD_TRANSFER_BLOCK, 0, 0, 0])
  {
    var put := response.Put([CMD_TRANSFER_BLOCK]);
    if put.None? then None else
    var count := put.value.PutClaimed([0, 0]);
    if count.None? then None else count.value.PutClaimed([0])
  }

  /** The count and the acknowledge of DAP_Transfer filled in. */
  function TransferReported(items: seq<byte>, at: nat, done: nat, ack: nat): (r: seq<byte>)
    requires at + 2 <= |items|
    ensures |r| == |items|
  {
    items[at := done % 0x100][at + 1 := ack % 0x100]
  }

  /** The count and the acknowledge of DAP_TransferBlock filled in. */
  function BlockReported(items: seq<byte>, at: nat, done: nat, ack: nat): (r: seq<byte>)
    requires at + 3 <= |items|
    ensures |r| == |items|
  {
    items[..at] + Le16(done % 0x1_0000) + [ack % 0x100] + items[at + 3..]
  }

  /** The request buffer past n bytes. */
  function Skip(request: Ring, n: nat): (r: Ring)
    requires |request.items| >= n
  {
    request.(got := request.got + n, items := request.items[n..])
  }

  function Start(b: Bench, i: nat, count: nat, request: Ring): (e: Engine)
    requires i < |b.dps|
  {
    Engine(b.dps[i], 0, b.mask, 0, false, false, count, 0, request)
  }

  /** What DAP_Transfer does once its header is in: on a port that cannot take it, nothing but to take the requests off
      the buffer; otherwise what Run says. */
  function TransferBody(b: Bench, request: Ring, response: Ring, at: nat, index: nat, count: nat): (r: Result)
    requires request.Valid() && response.Valid() && at + 2 <= |response.items|
  {
    var i := Chosen(b, index);
    if i.None? then
      var drained := Drain(request, count);
      if drained.None? then Fault(b, MsgSize)
      else Done(b, drained.value, response.(items := TransferReported(response.items, at, 0, 0)))
    else
      var f := Run(b.c, Start(b, i.value, count, request));
      var b1 := b.(dps := b.dps[i.value := f.e.dp], mask := f.e.mask);
      if f.Failed? then Fault(b1, f.error)
      else Done(b1, f.e.request, response.(items := TransferReported(response.items, at, f.e.done, f.e.ack)))
  }

  /** dap_handle_cmd_transfer, from the byte after the command id on. */
  function TransferCommand(b: Bench, request: Ring, response: Ring): (r: Result)
    requires request.Valid() && response.Valid()
  {
    var begun := Reserved(response);
    if begun.None? then Fault(b, NoBufs)
    else if |request.items| < 2 then Fault(b, MsgSize)
    else TransferBody(b, Skip(request, 2), begun.value, |response.items| + 1, request.items[0], request.items[1])
  }

  function BlockBody(b: Bench, request: Ring, response: Ring, at: nat, index: nat, count: nat, code: byte): (r: Result)
    requires request.Valid() && response.Valid() && at + 3 <= |response.items|
  {
    var i := Chosen(b, index);
    if i.None? then
      var rest := CancelWords(request, count, code);
      if rest.None? then Fault(b, MsgSize)
      else Done(b, rest.value, response.(items := BlockReported(response.items, at, 0, 0)))
    else
      var f := RunBlock(b.c, Block(b.dps[i.value], 0, 0, count, 0, code, request, response));
      var b1 := b.(dps := b.dps[i.value := f.b.dp]);
      if f.Broken? then Fault(b1, f.error)
      else Done(b1, f.b.request, f.b.response.(items := BlockReported(f.b.response.items, at, f.b.done, f.b.ack)))
  }

  /** dap_handle_cmd_transfer_block, from the byte after the command id on. */
  function BlockCommand(b: Bench, request: Ring, response: Ring): (r: Result)
    requires request.Valid() && response.Valid()
  {
    var begun := BlockReserved(response);
    if begun.None? then Fault(b, NoBufs)
    else if |request.items| < 4 then Fault(b, MsgSize)
    else BlockBody(b, Skip(request, 4), begun.value, |response.items| + 1,
      request.items[0], FromLe16(request.items[1..3]), request.items[3])
  }

  /** dap_handle_cmd_transfer_configure, from the byte after the command id on. Each number is stored as it comes; the
      first, of idle clocks, changes nothing a target answers. */
  function ConfigureCommand(b: Bench, request: Ring, response: Ring): (r: Result)
    requires request.Valid() && response.Valid()
  {
    var idle := request.Get(1);
    if idle.None? then Fault(b, MsgSize) else
    var waits := idle.value.1.GetClaimed(2);
    if waits.None? then Fault(b, MsgSize) else
    var b1 := b.(c := b.c.(waitRetries := FromLe16(waits.value.0)));
    var matches := waits.value.1.GetClaimed(2);
    if matches.None? then Fault(b1, MsgSize) else
    var b2 := b1.(c := b1.c.(matchRetries := FromLe16(matches.value.0)));
    var put := response.Put([CMD_TRANSFER_CONFIGURE, RESPONSE_OK]);
    if put.None? then Fault(b2, NoBufs) else Done(b2, matches.value.1, put.value)
  }
}
