/** The dispatcher carries out a stream of packets as the flat list of its commands. */
module DispatchProof {
  import opened Bits
  import opened RingBuffer
  import opened Status
  import opened Dispatcher

  /** room: the most bytes the command may append to the request buffer. */
  datatype Command = Command(id: byte, payload: seq<byte>, room: nat)

  /** A packet is one command, or an atomic batch that is either queued or executed at once. */
  datatype Packet = Plain(cmd: Command) | Batch(queued: bool, cmds: seq<Command>)

  function EncodeCommands(cmds: seq<Command>): (bs: seq<byte>) {
    if cmds == [] then [] else [cmds[0].id] + cmds[0].payload + EncodeCommands(cmds[1..])
  }

  /** The count is one byte: 256 commands are announced as 0. */
  function EncodePacket(p: Packet): (bs: seq<byte>) {
    match p
    case Plain(cmd) => EncodeCommands([cmd])
    case Batch(queued, cmds) =>
      [if queued then QUEUE_COMMANDS else EXECUTE_COMMANDS, |cmds| % 0x100] + EncodeCommands(cmds)
  }

  function EncodeStream(ps: seq<Packet>): (bs: seq<byte>) {
    if ps == [] then [] else EncodePacket(ps[0]) + EncodeStream(ps[1..])
  }

  function RoomOf(cmds: seq<Command>): (n: nat) {
    if cmds == [] then 0 else cmds[0].room + RoomOf(cmds[1..])
  }

  function RoomOfAll(ps: seq<Packet>): (n: nat) {
    if ps == [] then 0 else RoomOf(CommandsOf(ps[0])) + RoomOfAll(ps[1..])
  }

  /** What a command comes to, buffers apart: the new state, what it appends to the request, what it replies. */
  datatype Effect<S> = Effect(state: S, appended: seq<byte>, reply: seq<byte>)

  /** The effects of all commands; None where one is refused. */
  type Effects<!S> = (S, Command) -> Option<Effect<S>>

  /** r is effect e on these buffers: the payload is used, rest stays, and the reply is there if it fits. */
  ghost predicate Does<S>(r: Handled<S>, e: Option<Effect<S>>, cmd: Command, request: Ring, response: Ring,
    rest: seq<byte>)
  {
    match e
    case None => r.Refused?
    case Some(x) =>
      && |x.appended| <= cmd.room
      && if |response.items| + |x.reply| > response.cap then r.Refused? else
        r == Handled(x.state,
          request.(got := request.got + |cmd.payload|, items := rest + x.appended),
          response.(items := response.items + x.reply))
  }

  /** The handler takes exactly the payload, whatever follows and whatever the state, as long as there is room. */
  ghost predicate Proper<S(!new)>(h: Handlers<S>, f: Effects<S>, cmd: Command) {
    && cmd.id != QUEUE_COMMANDS && cmd.id != EXECUTE_COMMANDS
    && forall s: S, request: Ring, response: Ring, rest: seq<byte> ::
      && request.Valid() && request.items == cmd.payload + rest && request.Room(cmd.room) && request.cap < 0x1_0000
      && response.Valid() && response.got == 0 ==>
        Does(h(s, cmd.id, request, response), f(s, cmd), cmd, request, response, rest)
  }

  ghost predicate ProperPacket<S(!new)>(h: Handlers<S>, f: Effects<S>, p: Packet) {
    match p
    case Plain(cmd) => Proper(h, f, cmd)
    case Batch(_, cmds) => 1 <= |cmds| <= 256 && forall cmd :: cmd in cmds ==> Proper(h, f, cmd)
  }

  /** Queued batches, then one packet that is not queued. */
  ghost predicate ProperStream<S(!new)>(h: Handlers<S>, f: Effects<S>, ps: seq<Packet>) {
    && ps != []
    && (forall p :: p in ps ==> ProperPacket(h, f, p))
    && (forall i :: 0 <= i < |ps| ==> (ps[i].Batch? && ps[i].queued <==> i < |ps| - 1))
  }

  // The reference: a list of commands, one after the other; None as soon as one is refused.

  /** One effect after another. */
  function Join<S>(e1: Option<Effect<S>>, e2: Option<Effect<S>>): (e: Option<Effect<S>>) {
    if e1.None? || e2.None? then None
    else Some(Effect(e2.value.state, e1.value.appended + e2.value.appended, e1.value.reply + e2.value.reply))
  }

  function RunCommands<S>(f: Effects<S>, s: S, cmds: seq<Command>): (r: Option<Effect<S>>)
    decreases |cmds|
  {
    if cmds == [] then Some(Effect(s, [], [])) else
    var e := f(s, cmds[0]);
    if e.None? then None else Join(e, RunCommands(f, e.value.state, cmds[1..]))
  }

  function CommandsOf(p: Packet): (cmds: seq<Command>) {
    if p.Plain? then [p.cmd] else p.cmds
  }

  /** The response of a packet: a batch of either kind announces itself as executed. */
  function HeadOf(p: Packet): (bs: seq<byte>) {
    if p.Plain? then [] else [EXECUTE_COMMANDS, |p.cmds| % 0x100]
  }

  /** A command is its id and payload; a batch starts with 0x7e to be queued, 0x7f to be carried out at once, and its
      count, 256 of them as 0; either is answered with 0x7f and the count. */
  lemma PacketBytes(cmd: Command, cmds: seq<Command>)
    ensures EncodeCommands([cmd] + cmds) == [cmd.id] + cmd.payload + EncodeCommands(cmds)
    ensures EncodePacket(Batch(true, cmds)) == [0x7e, |cmds| % 256] + EncodeCommands(cmds)
    ensures EncodePacket(Batch(false, cmds)) == [0x7f, |cmds| % 256] + EncodeCommands(cmds)
    ensures forall queued: bool :: HeadOf(Batch(queued, cmds)) == [0x7f, |cmds| % 256]
  {
    assert ([cmd] + cmds)[1..] == cmds;
  }

  function RunPacket<S>(f: Effects<S>, s: S, p: Packet): (r: Option<Effect<S>>) {
    Join(Some(Effect(s, [], HeadOf(p))), RunCommands(f, s, CommandsOf(p)))
  }

  function RunStream<S>(f: Effects<S>, s: S, ps: seq<Packet>): (r: Option<Effect<S>>)
    decreases |ps|
  {
    if ps == [] then Some(Effect(s, [], [])) else
    var e := RunPacket(f, s, ps[0]);
    if e.None? then None else Join(e, RunStream(f, e.value.state, ps[1..]))
  }

  /** d after the bytes up to rest have been used, with effect r; None if r refuses or its replies do not fit. */
  function After<S>(d: Dispatch<S>, rest: seq<byte>, r: Option<Effect<S>>): (a: Option<Dispatch<S>>)
    requires d.Valid() && |rest| <= |d.request.items|
  {
    if r.None? || |d.response.items| + |r.value.reply| > d.response.cap then None
    else Some(Dispatch(r.value.state,
      d.request.(got := d.request.got + |d.request.items| - |rest|, items := rest + r.value.appended),
      d.response.(items := d.response.items + r.value.reply)))
  }

  /** What is known before a command: its place in the buffers, which are below 64 KB, and room for what it appends. */
  ghost predicate Ready<S>(d: Dispatch<S>, room: nat) {
    d.Valid() && d.response.got == 0 && d.request.Room(room) && d.request.cap < 0x1_0000
  }

  lemma AfterReady<S>(d: Dispatch<S>, rest: seq<byte>, r: Option<Effect<S>>, room: nat, used: nat)
    requires Ready(d, room) && |rest| <= |d.request.items| && After(d, rest, r).Some?
    requires |r.value.appended| <= used <= room
    ensures Ready(After(d, rest, r).value, room - used)
  {
  }

  lemma HandleProper<S(!new)>(h: Handlers<S>, f: Effects<S>, d: Dispatch<S>, cmd: Command, rest: seq<byte>)
    requires Orderly(h) && Ready(d, cmd.room) && Proper(h, f, cmd) && d.request.items == cmd.payload + rest
    ensures var r, a := Handle(h, d, cmd.id), After(d, rest, f(d.state, cmd));
      && (if a.None? then r.Failed? else r == Done(a.value))
      && (f(d.state, cmd).Some? ==> |f(d.state, cmd).value.appended| <= cmd.room)
  {
    assert Does(h(d.state, cmd.id, d.request, d.response), f(d.state, cmd), cmd, d.request, d.response, rest);
  }

  lemma ProperId<S(!new)>(h: Handlers<S>, f: Effects<S>, cmd: Command)
    requires Proper(h, f, cmd)
    ensures cmd.id != QUEUE_COMMANDS && cmd.id != EXECUTE_COMMANDS
  {
  }

  /** What the loop does after a turn. */
  function Exit<S(!new)>(h: Handlers<S>, d: Dispatch<S>, num: nat, queued: bool): (r: Outcome<S>)
    requires d.Valid() && Orderly(h) && num < 0x100
  {
    if num > 0 || queued then Loop(h, d, num, queued) else Done(d)
  }

  /** The loop has done r to d, up to rest, and goes on with num and queued. */
  ghost predicate GoesOn<S(!new)>(h: Handlers<S>, o: Outcome<S>, d: Dispatch<S>, rest: seq<byte>, r: Option<Effect<S>>,
    num: nat, queued: bool)
    requires d.Valid() && |rest| <= |d.request.items| && Orderly(h) && num < 0x100
  {
    var a := After(d, rest, r);
    if a.None? then o.Failed? else a.value.Valid() && o == Exit(h, a.value, num, queued)
  }

  lemma JoinNothing<S>(s: S, r: Option<Effect<S>>)
    ensures Join(Some(Effect(s, [], [])), r) == r
    ensures r.Some? ==> Join(r, Some(Effect(r.value.state, [], []))) == r
  {
    if r.Some? {
      assert [] + r.value.reply == r.value.reply + [] == r.value.reply;
      assert [] + r.value.appended == r.value.appended + [] == r.value.appended;
    }
  }

  lemma JoinAssoc<S>(a: Option<Effect<S>>, b: Option<Effect<S>>, c: Option<Effect<S>>)
    ensures Join(Join(a, b), c) == Join(a, Join(b, c))
  {
    if a.Some? && b.Some? && c.Some? {
      assert a.value.reply + b.value.reply + c.value.reply == a.value.reply + (b.value.reply + c.value.reply);
      assert a.value.appended + b.value.appended + c.value.appended
        == a.value.appended + (b.value.appended + c.value.appended);
    }
  }

  /** What the first effect appends lies behind the rest when the second has its turn. */
  lemma AfterTwice<S>(d: Dispatch<S>, more: seq<byte>, rest: seq<byte>, r1: Option<Effect<S>>, r2: Option<Effect<S>>)
    requires d.Valid() && |rest| <= |more| <= |d.request.items| && After(d, more, r1).Some?
    requires After(d, more, r1).value.Valid()
    ensures After(After(d, more, r1).value, rest + r1.value.appended, r2) == After(d, rest, Join(r1, r2))
  {
    if r2.Some? {
      assert d.response.items + (r1.value.reply + r2.value.reply) == d.response.items + r1.value.reply + r2.value.reply;
      assert rest + (r1.value.appended + r2.value.appended) == rest + r1.value.appended + r2.value.appended;
    }
  }

  /** A turn that finds an ordinary command. */
  lemma TurnPlain<S(!new)>(h: Handlers<S>, f: Effects<S>, d: Dispatch<S>, cmd: Command, num: nat, queued: bool,
    more: seq<byte>)
    requires Orderly(h) && Ready(d, cmd.room) && 0 < num < 0x100 && Proper(h, f, cmd)
    requires d.request.items == [cmd.id] + cmd.payload + more
    ensures GoesOn(h, Loop(h, d, num, queued), d, more, f(d.state, cmd), num - 1, queued)
    ensures f(d.state, cmd).Some? ==> |f(d.state, cmd).value.appended| <= cmd.room
  {
    hide Handle, Orderly, Proper, Turn, Open;
    var items := cmd.payload + more;
    assert d.request.items == [cmd.id] + items;
    ProperId(h, f, cmd);
    TurnOf(h, d, cmd.id, items, num, queued);
    HandleProper(h, f, Past(d, 1, items), cmd, more);
    PastAfter(d, 1, items, more, f(d.state, cmd));
  }

  /** d with the first n bytes of its request taken off. */
  function Past<S>(d: Dispatch<S>, n: nat, items: seq<byte>): (r: Dispatch<S>) {
    d.(request := d.request.(got := d.request.got + n, items := items))
  }

  lemma PastAfter<S>(d: Dispatch<S>, n: nat, items: seq<byte>, more: seq<byte>, e: Option<Effect<S>>)
    requires d.Valid() && |d.request.items| == n + |items| && |more| <= |items|
    ensures After(Past(d, n, items), more, e) == After(d, more, e)
  {
  }

  lemma TurnOf<S(!new)>(h: Handlers<S>, d: Dispatch<S>, id: byte, items: seq<byte>, num: nat, queued: bool)
    requires Orderly(h) && d.Valid() && 0 < num < 0x100 && d.request.items == [id] + items
    requires id != QUEUE_COMMANDS && id != EXECUTE_COMMANDS
    ensures Turn(h, d, num, queued) == (Handle(h, Past(d, 1, items), id), num - 1, queued)
  {
    hide Handle, Orderly, Open;
    GetFront(d.request, [id], items);
  }

  /** The remaining commands of a batch. */
  lemma {:induction false} CommandsRun<S(!new)>(h: Handlers<S>, f: Effects<S>, d: Dispatch<S>, cmds: seq<Command>,
    queued: bool, rest: seq<byte>)
    requires Orderly(h) && Ready(d, RoomOf(cmds)) && |cmds| < 0x100 && d.request.items == EncodeCommands(cmds) + rest
    requires forall cmd :: cmd in cmds ==> Proper(h, f, cmd)
    ensures var r := RunCommands(f, d.state, cmds);
      && (var a := After(d, rest, r);
          if a.None? then Exit(h, d, |cmds|, queued).Failed?
          else a.value.Valid() && Exit(h, d, |cmds|, queued) == Exit(h, a.value, 0, queued))
      && (r.Some? && After(d, rest, r).Some? ==> |r.value.appended| <= RoomOf(cmds))
    decreases |cmds|
  {
    hide Orderly, Proper, Loop;
    if cmds == [] {
      assert d.request.items == rest && d.response.items + [] == d.response.items && rest + [] == rest;
    } else {
      var cmd := cmds[0];
      assert cmd in cmds;
      var more := EncodeCommands(cmds[1..]) + rest;
      assert d.request.items == [cmd.id] + cmd.payload + more;
      TurnPlain(h, f, d, cmd, |cmds|, queued, more);
      var e := f(d.state, cmd);
      var a := After(d, more, e);
      if a.Some? {
        AfterReady(d, more, e, RoomOf(cmds), cmd.room);
        var rest1 := rest + e.value.appended;
        assert a.value.request.items == EncodeCommands(cmds[1..]) + rest1;
        CommandsRun(h, f, a.value, cmds[1..], queued, rest1);
        AfterTwice(d, more, rest, e, RunCommands(f, a.value.state, cmds[1..]));
      }
    }
  }

  lemma OpenRuns<S>(d: Dispatch<S>, n: byte, tail: seq<byte>)
    requires d.Valid() && d.request.items == [n] + tail
    ensures d.response.Space() < 2 ==> Open(d).0.Failed?
    ensures d.response.Space() >= 2 ==> Open(d) == (Done(d.(
      request := d.request.(got := d.request.got + 1, items := tail),
      response := d.response.(items := d.response.items + [EXECUTE_COMMANDS, n]))), n)
  {
    assert d.request.items[..1] == [n] && d.request.items[1..] == tail;
    assert d.response.items + [EXECUTE_COMMANDS] + [n] == d.response.items + [EXECUTE_COMMANDS, n];
  }

  /** A turn that finds the head of a batch, with its first command. */
  lemma TurnBatch<S(!new)>(h: Handlers<S>, f: Effects<S>, d: Dispatch<S>, p: Packet, more: seq<byte>)
    requires Orderly(h) && p.Batch? && p.cmds != [] && Ready(d, p.cmds[0].room) && Proper(h, f, p.cmds[0])
    requires |p.cmds| <= 256
    requires d.request.items == [if p.queued then QUEUE_COMMANDS else EXECUTE_COMMANDS, |p.cmds| % 0x100]
      + ([p.cmds[0].id] + p.cmds[0].payload + more)
    ensures GoesOn(h, Loop(h, d, 1, false), d, more,
      Join(Some(Effect(d.state, [], HeadOf(p))), f(d.state, p.cmds[0])), |p.cmds| - 1, p.queued)
    ensures After(d, more, Join(Some(Effect(d.state, [], HeadOf(p))), f(d.state, p.cmds[0]))).Some? ==>
      |f(d.state, p.cmds[0]).value.appended| <= p.cmds[0].room
  {
    hide Handle, Proper, Open, Orderly, Turn;
    var cmd := p.cmds[0];
    var items := cmd.payload + more;
    TurnOfBatch(h, d, p.queued, |p.cmds| % 0x100, cmd.id, items);
    if 2 <= d.response.Space() {
      var d1 := Opened(d, |p.cmds| % 0x100, items);
      HandleProper(h, f, d1, cmd, more);
      HeadJoined(d, d1, HeadOf(p), f(d.state, cmd), items, more);
    }
  }

  /** d with the head of a batch and its first command id taken off, and the head of its response put. */
  function Opened<S>(d: Dispatch<S>, n: byte, items: seq<byte>): (r: Dispatch<S>) {
    d.(request := d.request.(got := d.request.got + 3, items := items),
       response := d.response.(items := d.response.items + [EXECUTE_COMMANDS, n]))
  }

  lemma TurnOfBatch<S(!new)>(h: Handlers<S>, d: Dispatch<S>, queued: bool, n: byte, id: byte, items: seq<byte>)
    requires Orderly(h) && d.Valid()
    requires d.request.items == [if queued then QUEUE_COMMANDS else EXECUTE_COMMANDS, n] + ([id] + items)
    ensures d.response.Space() < 2 ==> Turn(h, d, 1, false).0.Failed?
    ensures d.response.Space() >= 2 ==>
      && Opened(d, n, items).Valid()
      && Turn(h, d, 1, false) == (Handle(h, Opened(d, n, items), id), (n + 0xff) % 0x100, queued)
  {
    hide Handle, Orderly, Open;
    var first := if queued then QUEUE_COMMANDS else EXECUTE_COMMANDS;
    assert d.request.items == [first] + ([n] + ([id] + items));
    GetFront(d.request, [first], [n] + ([id] + items));
    var d1 := Past(d, 1, [n] + ([id] + items));
    OpenRuns(d1, n, [id] + items);
    if 2 <= d.response.Space() {
      GetFront(d1.request.(got := d1.request.got + 1, items := [id] + items), [id], items);
    }
  }

  lemma HeadJoined<S>(d: Dispatch<S>, d1: Dispatch<S>, head: seq<byte>, e: Option<Effect<S>>, items: seq<byte>,
    more: seq<byte>)
    requires d.Valid() && d1.Valid() && |more| <= |items| <= |d.request.items|
    requires d1 == d.(request := d.request.(got := d.request.got + |d.request.items| - |items|, items := items),
      response := d.response.(items := d.response.items + head))
    ensures After(d1, more, e) == After(d, more, Join(Some(Effect(d.state, [], head)), e))
  {
    if e.Some? {
      assert d.response.items + head + e.value.reply == d.response.items + (head + e.value.reply);
      assert [] + e.value.appended == e.value.appended;
    }
  }

  /** A whole packet does r and ends where a packet may end. */
  ghost predicate PacketDone<S(!new)>(h: Handlers<S>, d: Dispatch<S>, rest: seq<byte>, r: Option<Effect<S>>, room: nat,
    queued: bool)
    requires d.Valid() && |rest| <= |d.request.items| && Orderly(h)
  {
    && GoesOn(h, Loop(h, d, 1, false), d, rest, r, 0, queued)
    && (After(d, rest, r).Some? ==> |r.value.appended| <= room)
  }

  lemma BatchRuns<S(!new)>(h: Handlers<S>, f: Effects<S>, d: Dispatch<S>, p: Packet, rest: seq<byte>)
    requires Orderly(h) && p.Batch? && ProperPacket(h, f, p) && Ready(d, RoomOf(p.cmds))
    requires d.request.items == EncodePacket(p) + rest
    ensures PacketDone(h, d, rest, RunPacket(f, d.state, p), RoomOf(p.cmds), p.queued)
  {
    hide Loop, Proper, Orderly, HeadOf, EncodeCommands, EncodePacket, RunCommands, RunPacket, Ready, After, Join;
    var cmds := p.cmds;
    var more := EncodeCommands(cmds[1..]) + rest;
    var head := Some(Effect(d.state, [], HeadOf(p)));
    var first := f(d.state, cmds[0]);
    ReadyValid(d, RoomOf(cmds));
    BatchBytes(d, p, rest);
    TurnBatch(h, f, d, p, more);
    var one := Join(head, first);
    var a := After(d, more, one);
    if a.Some? {
      BatchFirst(d, p, more, rest, first);
      var rest1 := rest + first.value.appended;
      CommandsRun(h, f, a.value, cmds[1..], p.queued, rest1);
      var others := RunCommands(f, a.value.state, cmds[1..]);
      AfterTwice(d, more, rest, one, others);
      JoinAssoc(head, first, others);
      BatchJoined(f, d, p, rest, others);
    } else {
      BatchCut(f, d, p, more, rest);
    }
  }

  lemma ReadyValid<S>(d: Dispatch<S>, room: nat)
    requires Ready(d, room)
    ensures d.Valid()
  {
  }

  lemma BatchBytes<S>(d: Dispatch<S>, p: Packet, rest: seq<byte>)
    requires p.Batch? && 1 <= |p.cmds| <= 256 && d.request.items == EncodePacket(p) + rest
    ensures var more := EncodeCommands(p.cmds[1..]) + rest;
      && d.request.items == [if p.queued then QUEUE_COMMANDS else EXECUTE_COMMANDS, |p.cmds| % 0x100]
        + ([p.cmds[0].id] + p.cmds[0].payload + more)
      && |rest| <= |more| <= |d.request.items|
    ensures RoomOf(p.cmds) == p.cmds[0].room + RoomOf(p.cmds[1..])
    ensures Ready(d, RoomOf(p.cmds)) ==> Ready(d, p.cmds[0].room)
  {
    var tail := EncodeCommands(p.cmds[1..]);
    var head := [if p.queued then QUEUE_COMMANDS else EXECUTE_COMMANDS, |p.cmds| % 0x100];
    var first := [p.cmds[0].id] + p.cmds[0].payload;
    assert d.request.items == head + (first + tail) + rest;
    hide EncodeCommands, EncodePacket;
    assert head + (first + tail) + rest == head + (first + (tail + rest));
  }

  lemma BatchFirst<S>(d: Dispatch<S>, p: Packet, more: seq<byte>, rest: seq<byte>, first: Option<Effect<S>>)
    requires p.Batch? && p.cmds != [] && Ready(d, RoomOf(p.cmds)) && more == EncodeCommands(p.cmds[1..]) + rest
    requires |more| <= |d.request.items|
    requires var one := Join(Some(Effect(d.state, [], HeadOf(p))), first);
      After(d, more, one).Some? && |first.value.appended| <= p.cmds[0].room
    ensures first.Some?
    ensures var one := Join(Some(Effect(d.state, [], HeadOf(p))), first);
      var a := After(d, more, one).value;
      && Ready(a, RoomOf(p.cmds[1..])) && a.state == first.value.state && one.value.appended == first.value.appended
      && a.request.items == EncodeCommands(p.cmds[1..]) + (rest + first.value.appended)
  {
    hide EncodeCommands, HeadOf;
    var one := Join(Some(Effect(d.state, [], HeadOf(p))), first);
    assert [] + first.value.appended == first.value.appended;
    AfterReady(d, more, one, RoomOf(p.cmds), p.cmds[0].room);
    assert more + first.value.appended == EncodeCommands(p.cmds[1..]) + (rest + first.value.appended);
  }

  /** The head, the first command and the others are the batch. */
  lemma BatchJoined<S>(f: Effects<S>, d: Dispatch<S>, p: Packet, rest: seq<byte>, others: Option<Effect<S>>)
    requires p.Batch? && p.cmds != [] && d.Valid() && |rest| <= |d.request.items|
    requires f(d.state, p.cmds[0]).Some? && others == RunCommands(f, f(d.state, p.cmds[0]).value.state, p.cmds[1..])
    ensures RunPacket(f, d.state, p) == Join(Some(Effect(d.state, [], HeadOf(p))), Join(f(d.state, p.cmds[0]), others))
    ensures var first := f(d.state, p.cmds[0]);
      After(d, rest, RunPacket(f, d.state, p)).Some? && |first.value.appended| <= p.cmds[0].room
        && (others.Some? ==> |others.value.appended| <= RoomOf(p.cmds[1..])) ==>
      |RunPacket(f, d.state, p).value.appended| <= RoomOf(p.cmds)
  {
    hide HeadOf;
  }

  /** If the first command of a batch cannot be answered, nor can the batch. */
  lemma BatchCut<S>(f: Effects<S>, d: Dispatch<S>, p: Packet, more: seq<byte>, rest: seq<byte>)
    requires d.Valid() && p.Batch? && p.cmds != [] && |rest| <= |more| <= |d.request.items|
    requires After(d, more, Join(Some(Effect(d.state, [], HeadOf(p))), f(d.state, p.cmds[0]))).None?
    ensures After(d, rest, RunPacket(f, d.state, p)).None?
  {
  }

  /** A whole packet, met where a new packet is expected. */
  lemma PacketRuns<S(!new)>(h: Handlers<S>, f: Effects<S>, d: Dispatch<S>, p: Packet, rest: seq<byte>)
    requires Orderly(h) && ProperPacket(h, f, p) && Ready(d, RoomOf(CommandsOf(p)))
    requires d.request.items == EncodePacket(p) + rest
    ensures PacketDone(h, d, rest, RunPacket(f, d.state, p), RoomOf(CommandsOf(p)), p.Batch? && p.queued)
  {
    if p.Plain? {
      hide Loop, Proper, Orderly;
      assert EncodeCommands([p.cmd][1..]) == [] && RoomOf([p.cmd][1..]) == 0;
      assert d.request.items == [p.cmd.id] + p.cmd.payload + rest;
      TurnPlain(h, f, d, p.cmd, 1, false, rest);
      var e := f(d.state, p.cmd);
      JoinNothing(d.state, e);
      assert RunCommands(f, d.state, [p.cmd]) == e by { RunSingle(f, d.state, p.cmd); }
    } else {
      BatchRuns(h, f, d, p, rest);
    }
  }

  lemma RunSingle<S>(f: Effects<S>, s: S, cmd: Command)
    ensures RunCommands(f, s, [cmd]) == f(s, cmd)
  {
    var e := f(s, cmd);
    JoinNothing(s, e);
    if e.Some? {
      assert [cmd][1..] == [];
      assert RunCommands(f, e.value.state, []) == Some(Effect(e.value.state, [], []));
    }
  }

  /** After a queued batch the dispatcher starts afresh. */
  lemma ResetTurn<S(!new)>(h: Handlers<S>, d: Dispatch<S>)
    requires d.Valid() && Orderly(h)
    ensures Loop(h, d, 0, true) == Loop(h, d, 1, false)
  {
    hide Handle, Open, Orderly;
    assert Turn(h, d, 0, true) == Turn(h, d, 1, false);
  }

  /** dap_handle_request on any number of queued batches and the packet that releases them, with room for what their
      commands append: it uses exactly their bytes, its effect on the state is that of all their commands in order, its
      response is, packet by packet, the batch head and the replies, and behind the rest of the request lies all they
      have appended. It fails exactly when a command is refused or the response does not fit. */
  lemma {:induction false} StreamRuns<S(!new)>(h: Handlers<S>, f: Effects<S>, d: Dispatch<S>, ps: seq<Packet>,
    rest: seq<byte>)
    requires Orderly(h) && ProperStream(h, f, ps) && Ready(d, RoomOfAll(ps))
    requires d.request.items == EncodeStream(ps) + rest
    ensures var a := After(d, rest, RunStream(f, d.state, ps));
      if a.None? then Loop(h, d, 1, false).Failed? else a.value.Valid() && Loop(h, d, 1, false) == Done(a.value)
    decreases |ps|
  {
    hide Loop, Orderly, ProperPacket, RunPacket, EncodePacket;
    var p := ps[0];
    assert p in ps;
    var more := EncodeStream(ps[1..]) + rest;
    assert d.request.items == EncodePacket(p) + more;
    PacketRuns(h, f, d, p, more);
    var one := RunPacket(f, d.state, p);
    var a := After(d, more, one);
    if |ps| == 1 {
      assert ps[1..] == [] && more == rest;
      JoinNothing(d.state, one);
    } else if a.Some? {
      AfterReady(d, more, one, RoomOfAll(ps), RoomOf(CommandsOf(p)));
      var rest1 := rest + one.value.appended;
      assert a.value.request.items == EncodeStream(ps[1..]) + rest1;
      TailStream(h, f, ps);
      StreamRuns(h, f, a.value, ps[1..], rest1);
      AfterTwice(d, more, rest, one, RunStream(f, a.value.state, ps[1..]));
      ResetTurn(h, a.value);
    } else {
      StreamCut(f, d, ps, more, rest);
    }
  }

  lemma TailStream<S(!new)>(h: Handlers<S>, f: Effects<S>, ps: seq<Packet>)
    requires ProperStream(h, f, ps) && |ps| > 1
    ensures ProperStream(h, f, ps[1..]) && ps[0].Batch? && ps[0].queued
  {
    hide ProperPacket;
    assert forall i :: 0 <= i < |ps[1..]| ==> ps[1..][i] == ps[i + 1];
  }

  lemma StreamCut<S>(f: Effects<S>, d: Dispatch<S>, ps: seq<Packet>, more: seq<byte>, rest: seq<byte>)
    requires d.Valid() && ps != [] && |rest| <= |more| <= |d.request.items|
    requires After(d, more, RunPacket(f, d.state, ps[0])).None?
    ensures After(d, rest, RunStream(f, d.state, ps)).None?
  {
  }

  function EncodeEach(ps: seq<Packet>): (packets: seq<seq<byte>>)
    ensures |packets| == |ps|
  {
    if ps == [] then [] else [EncodePacket(ps[0])] + EncodeEach(ps[1..])
  }

  /** What the host gets back for a stream. */
  function Reply<S>(f: Effects<S>, d: Dispatch<S>, ps: seq<Packet>): (bs: seq<byte>) {
    var r := RunStream(f, d.state, ps);
    if r.None? || |r.value.reply| > d.response.cap then [RESPONSE_ERROR] else r.value.reply
  }

  /** Packet by packet: nothing is sent for a queued batch, and one response for the packet that releases them,
      after which the probe is ready for the next stream: what the commands have appended to the request is dropped.
      stored: the queued batches received so far. */
  lemma {:induction false} ServeRuns<S(!new)>(h: Handlers<S>, f: Effects<S>, d: Dispatch<S>, stored: seq<Packet>,
    ps: seq<Packet>)
    requires d.Valid() && Orderly(h) && ps != [] && ProperStream(h, f, stored + ps)
    requires d.request.items == EncodeStream(stored) && Storable(d.request, EncodeEach(ps))
    requires |d.request.items| + Sum(EncodeEach(ps)) + RoomOfAll(stored + ps) <= d.request.cap < 0x1_0000
    ensures var (d1, sent) := Serve(h, d, EncodeEach(ps));
      && sent == [Reply(f, d, stored + ps)]
      && d1.Valid() && d1.request == d.request.Reset() && d1.response.items == []
      && (var r := RunStream(f, d.state, stored + ps);
          r.Some? && |r.value.reply| <= d.response.cap ==> d1.state == r.value.state)
    decreases |ps|
  {
    hide Loop, Orderly, EncodePacket, ProperPacket, RunStream, RoomOfAll;
    var packets := EncodeEach(ps);
    var bytes := EncodePacket(ps[0]);
    assert ps[0] == (stored + ps)[|stored|] && ps[0] in stored + ps && packets[0] == bytes;
    EncodeHead(h, f, ps[0]);
    assert stored + ps == stored + [ps[0]] + ps[1..];
    EncodeSplit(stored, [ps[0]]);
    assert EncodeStream([ps[0]]) == bytes + EncodeStream([]) == bytes;
    Stored(d.request, bytes);
    if |ps| == 1 {
      assert ps == [ps[0]] && packets[1..] == [];
      var d0 := d.(request := d.request.(items := d.request.items + bytes), response := d.response.Reset());
      assert d0.request.items == EncodeStream(stored + ps) + [];
      StreamRuns(h, f, d0, stored + ps, []);
      var (d1, sent) := Receive(h, d, bytes);
      assert packets == [bytes] && Serve(h, d1, packets[1..]) == (d1, []);
      assert sent + [] == sent;
      NothingBefore(d0.response.items, RunStream(f, d.state, stored + ps));
    } else {
      var d1 := Receive(h, d, bytes).0;
      assert packets[1..] == EncodeEach(ps[1..]);
      ServeRuns(h, f, d1, stored + [ps[0]], ps[1..]);
    }
  }

  lemma NothingBefore<S>(items: seq<byte>, r: Option<Effect<S>>)
    requires items == []
    ensures r.Some? ==> items + r.value.reply == r.value.reply
  {
  }

  lemma EncodeHead<S(!new)>(h: Handlers<S>, f: Effects<S>, p: Packet)
    requires ProperPacket(h, f, p)
    ensures EncodePacket(p) != []
    ensures EncodePacket(p)[0] == QUEUE_COMMANDS <==> p.Batch? && p.queued
  {
  }

  lemma {:induction false} EncodeSplit(a: seq<Packet>, b: seq<Packet>)
    ensures EncodeStream(a + b) == EncodeStream(a) + EncodeStream(b)
  {
    hide EncodePacket;
    if a == [] {
      assert a + b == b;
    } else {
      EncodeSplit(a[1..], b);
      var ab := a + b;
      assert ab != [] && ab[0] == a[0] && ab[1..] == a[1..] + b;
      var first, second, third := EncodePacket(a[0]), EncodeStream(a[1..]), EncodeStream(b);
      assert first + (second + third) == first + second + third;
    }
  }
}
