/** The request dispatcher (dap_handle_request and the packet loop in firmware/src/dap/dap.c; io_handle_request in
    firmware/src/io/io.c parses the same grammar). The command handlers are parameters: a handler is given the state,
    the command id and both buffers, and does to them what it likes, or refuses. In particular it may append to the
    request buffer, as DAP_Transfer does. */
module Dispatcher {
  import opened Bits
  import opened RingBuffer
  import opened Status

  const QUEUE_COMMANDS: byte := 0x7e
  const EXECUTE_COMMANDS: byte := 0x7f
  const MAX_PACKET: nat := 512

  datatype Handled<S> = Handled(state: S, request: Ring, response: Ring) | Refused(state: S, error: Error)

  /** The handlers of all commands: state, command id, request buffer from the byte after it on, response buffer. */
  type Handlers<!S> = (S, byte, Ring, Ring) -> Handled<S>

  /** What every handler keeps to: nothing is taken back from the response, and one that leaves more in the request
      buffer than it found has replied. */
  ghost predicate Orderly<S(!new)>(h: Handlers<S>) {
    forall s: S, id: byte, request: Ring, response: Ring :: request.Valid() && response.Valid() ==>
      InOrder(request, response, h(s, id, request, response))
  }

  predicate InOrder<S>(request: Ring, response: Ring, r: Handled<S>) {
    r.Handled? ==>
      && r.request.Valid() && r.request.cap == request.cap && r.response.Valid() && r.response.cap == response.cap
      && |r.response.items| >= |response.items|
      && (|r.request.items| > |request.items| ==> |r.response.items| > |response.items|)
  }

  datatype Dispatch<S> = Dispatch(state: S, request: Ring, response: Ring)
  {
    predicate Valid() {
      request.Valid() && response.Valid()
    }
  }

  datatype Outcome<S> = Done(d: Dispatch<S>) | Failed(state: S, error: Error)

  predicate SameCaps<S>(d: Dispatch<S>, e: Dispatch<S>) {
    d.request.cap == e.request.cap && d.response.cap == e.response.cap
  }

  /** The response has grown, or else there is less to do. */
  predicate Nearer<S>(d: Dispatch<S>, e: Dispatch<S>) {
    || |e.response.items| > |d.response.items|
    || (|e.response.items| == |d.response.items| && |e.request.items| < |d.request.items|)
  }

  /** One command. */
  function Handle<S(!new)>(h: Handlers<S>, d: Dispatch<S>, command: byte): (r: Outcome<S>)
    requires d.Valid() && Orderly(h)
    ensures r.Done? ==> r.d.Valid() && SameCaps(d, r.d)
    ensures r.Done? && !Nearer(d, r.d) ==>
      |r.d.response.items| == |d.response.items| && |r.d.request.items| == |d.request.items|
  {
    assert InOrder(d.request, d.response, h(d.state, command, d.request, d.response));
    match h(d.state, command, d.request, d.response)
    case Refused(state, error) => Failed(state, error)
    case Handled(state, request, response) => Done(Dispatch(state, request, response))
  }

  /** The start of an atomic batch: its count, and the head of its response. */
  function Open<S>(d: Dispatch<S>): (r: (Outcome<S>, nat))
    requires d.Valid()
    ensures r.0.Done? ==>
      r.0.d.Valid() && SameCaps(d, r.0.d) && |r.0.d.request.items| < |d.request.items| && r.1 < 0x100
  {
    var got := d.request.Get(1);
    if got.None? then (Failed(d.state, MsgSize), 0) else
    var put := d.response.Put([EXECUTE_COMMANDS]);
    if put.None? then (Failed(d.state, NoBufs), 0) else
    var put2 := put.value.Put(got.value.0);
    if put2.None? then (Failed(d.state, NoBufs), 0) else
    (Done(d.(request := got.value.1, response := put2.value)), got.value.0[0])
  }

  /** One turn of the loop. */
  function Turn<S(!new)>(h: Handlers<S>, d: Dispatch<S>, num0: nat, queued0: bool): (r: (Outcome<S>, nat, bool))
    requires d.Valid() && Orderly(h) && num0 < 0x100
    ensures r.0.Done? ==> r.0.d.Valid() && SameCaps(d, r.0.d) && Nearer(d, r.0.d) && r.1 < 0x100
  {
    var reset := queued0 && num0 == 0;
    var num1 := if reset then 1 else num0;
    var queued1 := if reset then false else queued0;
    var got := d.request.Get(1);
    if got.None? then (Failed(d.state, MsgSize), 0, false) else
    var id := got.value.0[0];
    var d1 := d.(request := got.value.1);
    if id != QUEUE_COMMANDS && id != EXECUTE_COMMANDS then
      (Handle(h, d1, id), (num1 + 0xff) % 0x100, queued1)
    else
      var (begun, num) := Open(d1);
      if begun.Failed? then (begun, 0, false) else
      var first := begun.d.request.Get(1);
      if first.None? then (Failed(d.state, MsgSize), 0, false) else
      (Handle(h, begun.d.(request := first.value.1), first.value.0[0]),
       (num + 0xff) % 0x100,
       queued1 || id == QUEUE_COMMANDS)
  }

  /** dap_handle_request from some turn on. It ends: every turn puts something into the response, or takes something off
      the request. */
  function Loop<S(!new)>(h: Handlers<S>, d: Dispatch<S>, num: nat, queued: bool): (r: Outcome<S>)
    requires d.Valid() && Orderly(h) && num < 0x100
    ensures r.Done? ==> r.d.Valid() && SameCaps(d, r.d)
    decreases d.response.cap - |d.response.items|, |d.request.items|
  {
    var (r, num1, queued1) := Turn(h, d, num, queued);
    if r.Done? && (num1 > 0 || queued1) then Loop(h, r.d, num1, queued1) else r
  }

  class DapThread<S(0, !new)> {
    const h: Handlers<S>
    var state: S
    var request: Ring
    var response: Ring

    constructor (h: Handlers<S>, state: S, cap: nat)
      requires cap > 0 && Orderly(h)
      ensures Valid() && this.h == h && this.state == state
      ensures request == response == Ring(cap, 0, [])
    {
      this.h, this.state := h, state;
      request, response := Ring(cap, 0, []), Ring(cap, 0, []);
    }

    ghost predicate Valid()
      reads this
    {
      request.Valid() && response.Valid() && Orderly(h)
    }

    ghost function Now(): (d: Dispatch<S>)
      reads this
    {
      Dispatch(state, request, response)
    }

    /** Looks the command up and runs its handler. */
    method HandleCommand(command: byte) returns (error: Option<Error>)
      requires Valid()
      modifies `state, `request, `response
      ensures Valid() && request.cap == old(request.cap) && response.cap == old(response.cap)
      ensures var r := Handle(h, old(Now()), command);
        if r.Failed? then error == Some(r.error) && state == r.state else error == None && Now() == r.d
    {
      assert InOrder(request, response, h(state, command, request, response));
      match h(state, command, request, response)
      case Refused(newState, why) =>
        state, error := newState, Some(why);
      case Handled(newState, newRequest, newResponse) =>
        state, request, response, error := newState, newRequest, newResponse, None;
    }

    /** The head of a batch: its count goes to the response, and its first command id comes next. */
    method BeginBatch() returns (error: Option<Error>, num: nat, command: byte)
      requires Valid()
      modifies `request, `response
      ensures Valid() && request.cap == old(request.cap) && response.cap == old(response.cap) && state == old(state)
      ensures var (r, n) := Open(old(Now()));
        if r.Failed? then error == Some(r.error) && r.state == state
        else
          var first := r.d.request.Get(1);
          if first.None? then error == Some(MsgSize)
          else error == None && num == n && command == first.value.0[0] && Now() == r.d.(request := first.value.1)
    {
      num, command := 0, 0;
      var got := request.Get(1);
      if got.None? {
        return Some(MsgSize), num, command;
      }
      num, request := got.value.0[0], got.value.1;
      var put := response.Put([EXECUTE_COMMANDS]);
      if put.None? {
        return Some(NoBufs), num, command;
      }
      response := put.value;
      put := response.Put([num]);
      if put.None? {
        return Some(NoBufs), num, command;
      }
      response := put.value;
      got := request.Get(1);
      if got.None? {
        return Some(MsgSize), num, command;
      }
      command, request := got.value.0[0], got.value.1;
      error := None;
    }

    /** The body of the loop. */
    method HandleTurn(num0: nat, queued0: bool) returns (error: Option<Error>, num: nat, queued: bool)
      requires Valid() && num0 < 0x100
      modifies `state, `request, `response
      ensures Valid() && request.cap == old(request.cap) && response.cap == old(response.cap)
      ensures var (r, n, q) := Turn(h, old(Now()), num0, queued0);
        if r.Failed? then error == Some(r.error) && state == r.state
        else error == None && Now() == r.d && num == n && queued == q
    {
      hide Handle, Open;
      num, queued := num0, queued0;
      if queued && num == 0 {
        num, queued := 1, false;
      }
      var got := request.Get(1);
      if got.None? {
        return Some(MsgSize), num, queued;
      }
      var command;
      command, request := got.value.0[0], got.value.1;
      if command == QUEUE_COMMANDS || command == EXECUTE_COMMANDS {
        queued := queued || command == QUEUE_COMMANDS;
        error, num, command := BeginBatch();
        if error.Some? {
          return;
        }
      }
      error := HandleCommand(command);
      num := (num + 0xff) % 0x100;
    }

    /** dap_handle_request. */
    method HandleRequest() returns (error: Option<Error>)
      requires Valid()
      modifies `state, `request, `response
      ensures Valid() && request.cap == old(request.cap) && response.cap == old(response.cap)
      ensures var r := Loop(h, old(Now()), 1, false);
        if r.Failed? then error == Some(r.error) && state == r.state else error == None && Now() == r.d
    {
      hide Turn;
      var num, queued := 1, false;
      var go := true;
      error := None;
      while go
        invariant Valid() && 0 <= num < 0x100 && error == None
        invariant request.cap == old(request.cap) && response.cap == old(response.cap)
        invariant go ==> Loop(h, Now(), num, queued) == Loop(h, old(Now()), 1, false)
        invariant !go ==> Loop(h, old(Now()), 1, false) == Done(Now())
        decreases go, response.cap - |response.items|, |request.items|
      {
        error, num, queued := HandleTurn(num, queued);
        if error.Some? {
          return;
        }
        go := num > 0 || queued;
      }
    }

    /** One pass of the packet loop of dap_thread_fn. The transport has received the packet into the stretch claimed for
        it; sent is what goes back. */
    method ReceivePacket(packet: seq<byte>) returns (sent: seq<seq<byte>>)
      requires Valid() && packet != [] && |packet| <= Min(MAX_PACKET, request.PutRun())
      modifies `state, `request, `response
      ensures Valid() && (Now(), sent) == Receive(h, old(Now()), packet)
    {
      hide Loop, Turn, Handle, Open, Orderly;
      request := request.(items := request.items + packet);
      if packet[0] == QUEUE_COMMANDS {
        return [];
      }
      response := response.Reset();
      var error := HandleRequest();
      if error.Some? {
        response := response.Reset().(items := [RESPONSE_ERROR]);
      }
      sent := [response.items];
      response := response.(got := response.got + |response.items|, items := []);
      request := request.Reset();
    }
  }

  /** A queued batch is only stored; any other packet releases all that is stored, and one response is sent. */
  function Receive<S(!new)>(h: Handlers<S>, d: Dispatch<S>, packet: seq<byte>): (r: (Dispatch<S>, seq<seq<byte>>))
    requires d.Valid() && Orderly(h) && packet != [] && |packet| <= Min(MAX_PACKET, d.request.PutRun())
    ensures r.0.Valid() && r.0.request.cap == d.request.cap
    ensures d.request.got == 0 ==> r.0.request.got == 0 && |r.0.request.items| <= |d.request.items| + |packet|
  {
    var d1 := d.(request := d.request.(items := d.request.items + packet));
    if packet[0] == QUEUE_COMMANDS then (d1, []) else
    var r := Loop(h, d1.(response := d.response.Reset()), 1, false);
    var response := if r.Failed? then d.response.Reset().(items := [RESPONSE_ERROR]) else r.d.response;
    (Dispatch(if r.Failed? then r.state else r.d.state, d.request.Reset(),
       response.(got := response.got + |response.items|, items := [])),
     [response.items])
  }

  /** The packet loop over a list of received packets. */
  function Serve<S(!new)>(h: Handlers<S>, d: Dispatch<S>, packets: seq<seq<byte>>): (r: (Dispatch<S>, seq<seq<byte>>))
    requires d.Valid() && Orderly(h) && Storable(d.request, packets)
    decreases |packets|
  {
    if packets == [] then (d, []) else
    Stored(d.request, packets[0]);
    var (d1, sent) := Receive(h, d, packets[0]);
    var (d2, more) := Serve(h, d1, packets[1..]);
    (d2, sent + more)
  }

  /** The request buffer, of which nothing has been used yet, takes all packets, and none is empty or too long. */
  predicate Storable(request: Ring, packets: seq<seq<byte>>) {
    && request.got == 0 && |request.items| + Sum(packets) <= request.cap
    && forall i :: 0 <= i < |packets| ==> 0 < |packets[i]| <= MAX_PACKET
  }

  /** Then every claim is as long as the packet. */
  lemma Stored(request: Ring, packet: seq<byte>)
    requires request.Valid() && request.got == 0 && |request.items| + |packet| <= request.cap
    ensures |packet| <= request.PutRun()
  {
  }

  function Sum(packets: seq<seq<byte>>): (n: nat) {
    if packets == [] then 0 else |packets[0]| + Sum(packets[1..])
  }
}
