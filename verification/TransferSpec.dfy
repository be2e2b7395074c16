/** DAP_Transfer on values (dap_handle_cmd_transfer and port_transfer in firmware/src/dap/commands_transfer.c): the
    specification the imperative command handler is proved against. Like the code, it appends the words it reads to
    the request buffer (lines 339, 374 and 421), and collects a posted read into the variable that already holds the
    operand of the next request (line 335). */
module TransferSpec {
  import opened Bits
  import opened DebugPort
  import opened RingBuffer
  import opened Status

  datatype Port = Disabled | Jtag | Swd

  datatype Config = Config(w: World, port: Port, waitRetries: nat, matchRetries: nat)

  const RDBUFF_READ: byte := 0x0e
  const VALUE_MISMATCH := 16

  predicate IsMatchValue(request: byte) { request / 16 % 2 == 1 }

  predicate IsMatchMask(request: byte) { request / 32 % 2 == 1 }

  /** Write requests and value-match reads are followed by a four-byte operand. */
  predicate CarriesData(request: byte) {
    !IsRead(request) || IsMatchValue(request)
  }

  /** The result of the read comes with a later transaction. */
  predicate IsPosted(port: Port, request: byte) {
    port == Jtag || IsAp(request)
  }

  function Transact(w: World, port: Port, dp: Dp, request: byte, data: word): (r: Reply) {
    match port
    case Jtag => JtagTransact(w, dp, request, data)
    case Swd => SwdTransact(w, dp, request, data)
    case Disabled => Reply(ACK_FAULT, data, dp)
  }

  /** port_transfer: try again while the answer is WAIT. */
  function Retry(w: World, port: Port, dp: Dp, request: byte, data: word, retries: nat): (r: Reply)
    ensures r.ack < 16
    decreases retries
  {
    var r := Transact(w, port, dp, request, data);
    if r.ack == ACK_WAIT && retries > 0 then Retry(w, port, r.dp, request, r.data, retries - 1) else r
  }

  lemma TransactCounts(w: World, port: Port, dp: Dp, request: byte, data: word)
    requires port != Disabled
    ensures var r := Transact(w, port, dp, request, data);
      && r.dp.attempts == dp.attempts + 1
      && (r.ack == ACK_WAIT <==> w.ack(dp.attempts) == ACK_WAIT)
      && (r.ack == ACK_WAIT ==> r == Reply(ACK_WAIT, data, dp.(attempts := dp.attempts + 1)))
  {
  }

  /** WAIT retry is exactly-once: of the transactions made, all but the last drew WAIT, the last is the only one
      whose answer and effect the caller sees, and there is a next one only while the budget lasts. In particular
      a WAIT comes back only if every allowed transaction drew WAIT. */
  lemma {:induction false} RetryExactlyOnce(w: World, port: Port, dp: Dp, request: byte, data: word, retries: nat)
    requires port != Disabled
    ensures var r := Retry(w, port, dp, request, data, retries);
      var made := r.dp.attempts - dp.attempts;
      && 1 <= made <= retries + 1
      && (forall j :: dp.attempts <= j < dp.attempts + made - 1 ==> w.ack(j) == ACK_WAIT)
      && r == Transact(w, port, dp.(attempts := dp.attempts + made - 1), request, data)
      && (made <= retries ==> r.ack != ACK_WAIT)
    decreases retries
  {
    hide Transact;
    TransactCounts(w, port, dp, request, data);
    var r := Transact(w, port, dp, request, data);
    if r.ack == ACK_WAIT && retries > 0 {
      RetryExactlyOnce(w, port, r.dp, request, data, retries - 1);
    }
  }

  /** The variables of dap_handle_cmd_transfer, with the state they act on. */
  datatype Engine = Engine(
    dp: Dp,
    data: word,
    mask: word,
    ack: nat,
    pending: bool,
    ackPending: bool,
    count: nat,
    done: nat,
    request: Ring)

  /** Going: the command carries on. Stopped: a transfer was refused. Failed: the handler returns an error. */
  datatype Outcome = Going(e: Engine) | Stopped(e: Engine) | Failed(e: Engine, error: Error)

  function Wire(c: Config, e: Engine, request: byte): (r: Engine) {
    var r := Retry(c.w, c.port, e.dp, request, e.data, c.waitRetries);
    e.(ack := r.ack, data := r.data, dp := r.dp)
  }

  /** Takes the next request and its operand off the request buffer. */
  function Fetch(e: Engine): (r: (byte, Outcome))
    requires e.count > 0 && e.request.Valid()
    ensures r.1.e.request.Valid() && r.1.e.request.cap == e.request.cap
    ensures !r.1.Stopped? && (r.1.Going? ==> r.1.e.count == e.count - 1)
  {
    var got := e.request.Get(1);
    if got.None? then (0, Failed(e, MsgSize)) else
    var request := got.value.0[0];
    var e1 := e.(request := got.value.1);
    if !CarriesData(request) then (request, Going(e1.(count := e.count - 1))) else
    var operand := e1.request.GetClaimed(4);
    if operand.None? then (request, Failed(e1, MsgSize)) else
    (request, Going(e1.(request := operand.value.1, data := FromLe32(operand.value.0), count := e.count - 1)))
  }

  /** Appends the word just read, where the code appends it. */
  function Append(e: Engine): (r: Outcome)
    requires e.request.Valid()
    ensures r.e.request.Valid() && r.e.request.cap == e.request.cap && r.e.count == e.count && !r.Stopped?
    ensures r.e.ack == e.ack || r.e.ack < 32
  {
    var put := e.request.PutClaimed(Le32(e.data));
    if put.None? then Failed(e, NoBufs) else Going(e.(request := put.value))
  }

  /** Collects the result of a posted read through RDBUFF. */
  function Collect(c: Config, e: Engine): (r: Outcome)
    requires e.request.Valid()
    ensures r.e.request.Valid() && r.e.request.cap == e.request.cap && r.e.count == e.count
    ensures r.e.ack == e.ack || r.e.ack < 32
  {
    if !e.pending then Going(e) else
    var e1 := Wire(c, e, RDBUFF_READ).(pending := false);
    if e1.ack != ACK_OK then Stopped(e1) else Append(e1)
  }

  /** Reads until the value matches, a transfer is refused, or the tries run out. */
  function Poll(c: Config, e: Engine, request: byte, value: word, tries: nat): (r: Engine)
    ensures r == e.(ack := r.ack, data := r.data, dp := r.dp) && r.ack < 16
    decreases tries
  {
    var e1 := Wire(c, e, request);
    if e1.ack != ACK_OK || And(e1.data, e1.mask) == value || tries == 0 then e1
    else Poll(c, e1, request, value, tries - 1)
  }

  /** How a match ends once its last read is in. */
  function Judged(e: Engine, value: word): (r: Outcome)
    ensures r.e.request == e.request && r.e.count == e.count && !r.Failed? && r.e.ack <= e.ack + VALUE_MISMATCH
  {
    var e1 := if And(e.data, e.mask) != value then e.(ack := e.ack + VALUE_MISMATCH) else e;
    if e1.ack != ACK_OK then Stopped(e1) else Going(e1.(ackPending := false))
  }

  function MatchRead(c: Config, e: Engine, request: byte): (r: Outcome)
    requires e.request.Valid()
    ensures r.e.request.Valid() && r.e.request.cap == e.request.cap && r.e.count == e.count && !r.Failed?
    ensures r.e.ack == e.ack || r.e.ack < 32
  {
    var value := e.data;
    var e1 := if IsPosted(c.port, request) then Wire(c, e, request) else e;
    if IsPosted(c.port, request) && e1.ack != ACK_OK then Stopped(e1) else
    Judged(Poll(c, e1, request, value, c.matchRetries), value)
  }

  function NormalRead(c: Config, e: Engine, request: byte): (r: Outcome)
    requires e.request.Valid()
    ensures r.e.request.Valid() && r.e.request.cap == e.request.cap && r.e.count == e.count
    ensures r.e.ack == e.ack || r.e.ack < 32
  {
    var e1 := Wire(c, e, request);
    if e1.ack != ACK_OK then Stopped(e1)
    else if c.port == Swd && !IsAp(request) then
      var r := Append(e1);
      if r.Going? then Going(r.e.(ackPending := false)) else r
    else Going(e1.(pending := true, ackPending := false))
  }

  function Write(c: Config, e: Engine, request: byte): (r: Outcome)
    requires e.request.Valid()
    ensures r.e.request.Valid() && r.e.request.cap == e.request.cap && r.e.count == e.count && !r.Failed?
    ensures r.e.ack == e.ack || r.e.ack < 32
  {
    if IsMatchMask(request) then Going(e.(mask := e.data, ack := ACK_OK))
    else
      var e1 := Wire(c, e, request);
      if e1.ack != ACK_OK then Stopped(e1) else Going(e1.(ackPending := true))
  }

  function Execute(c: Config, e: Engine, request: byte): (r: Outcome)
    requires e.request.Valid()
    ensures r.e.request.Valid() && r.e.request.cap == e.request.cap && r.e.count == e.count
    ensures r.e.ack == e.ack || r.e.ack < 32
  {
    var r :=
      if !IsRead(request) then Write(c, e, request)
      else if IsMatchValue(request) then MatchRead(c, e, request)
      else NormalRead(c, e, request);
    if r.Going? then Going(r.e.(done := r.e.done + 1)) else r
  }

  function Iteration(c: Config, e: Engine): (r: Outcome)
    requires e.count > 0 && e.request.Valid()
    ensures r.e.request.Valid() && r.e.request.cap == e.request.cap && (r.Failed? || r.e.count == e.count - 1)
    ensures r.e.ack == e.ack || r.e.ack < 32
  {
    var (request, fetched) := Fetch(e);
    if !fetched.Going? then fetched else
    var collected := Collect(c, fetched.e);
    if !collected.Going? then collected else Execute(c, collected.e, request)
  }

  function Loop(c: Config, e: Engine): (r: Outcome)
    requires e.request.Valid()
    ensures r.e.request.Valid() && r.e.request.cap == e.request.cap && (r.Going? ==> r.e.count == 0)
    ensures r.e.ack == e.ack || r.e.ack < 32
    decreases e.count
  {
    if e.count == 0 then Going(e) else
    var r := Iteration(c, e);
    if r.Going? then Loop(c, r.e) else r
  }

  /** Processes the remaining (cancelled) request bytes. */
  function Drain(ring: Ring, count: nat): (r: Option<Ring>)
    requires ring.Valid()
    ensures r.Some? ==> r.value.Valid() && r.value.cap == ring.cap
    decreases count
  {
    if count == 0 then Some(ring) else
    var got := ring.Get(1);
    if got.None? then None
    else if !CarriesData(got.value.0[0]) then Drain(got.value.1, count - 1)
    else
      var operand := got.value.1.Get(4);
      if operand.None? then None else Drain(operand.value.1, count - 1)
  }

  /** What follows the label end: the cancelled requests, then the last acknowledge and read. Going means the
      handler succeeds; the acknowledge it reports is then e.ack. */
  function Finish(c: Config, e: Engine): (r: Outcome)
    requires e.request.Valid()
    ensures r.e.request.Valid() && r.e.request.cap == e.request.cap && !r.Stopped?
    ensures r.e.ack == e.ack || r.e.ack < 32
  {
    var drained := Drain(e.request, e.count);
    if drained.None? then Failed(e, MsgSize) else
    var e1 := e.(request := drained.value, count := 0);
    if e1.ack == ACK_OK && (e1.pending || e1.ackPending) then
      var e2 := Wire(c, e1, RDBUFF_READ);
      if e2.ack == ACK_OK && e2.pending then Append(e2) else Going(e2)
    else Going(e1)
  }

  /** The command from its first request on. */
  function Run(c: Config, e: Engine): (r: Outcome)
    requires e.request.Valid()
    ensures r.e.request.Valid() && r.e.request.cap == e.request.cap && !r.Stopped?
    ensures r.e.ack == e.ack || r.e.ack < 32
  {
    if c.port == Disabled then Finish(c, e) else
    var r := Loop(c, e);
    if r.Failed? then r else Finish(c, r.e)
  }
}
