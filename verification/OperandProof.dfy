/** When does every request of a DAP_Transfer use its own operand? Line 335 of
    firmware/src/dap/commands_transfer.c collects a posted read into the variable that line 327 has just filled, so a
    request with an operand that directly follows a posted read runs with the word read instead. */
module OperandProof {
  import opened Bits
  import opened DebugPort
  import opened RingBuffer
  import opened TransferSpec
  import opened TransferProof

  /** Every request the run comes to is given its own operand. */
  predicate OwnOperands(c: Config, s: Ref, rs: seq<Request>, pending: bool)
    decreases |rs|
  {
    rs == [] || (
      && (CarriesData(rs[0].code) ==> UsedOperand(s, rs[0], pending) == rs[0].operand)
      && (var s1 := RunOne(c, s, rs[0].code, UsedOperand(s, rs[0], pending));
          s1.Some? ==> OwnOperands(c, s1.value, rs[1..], LeavesPending(c.port, rs[0].code))))
  }

  /** After each of the requests the state is the one that their own operands lead to. */
  ghost predicate AlikeThroughout(c: Config, s: Ref, rs: seq<Request>, pending: bool) {
    forall n :: 0 <= n <= |rs| ==> RunUsed(c, s, rs[..n], pending) == RunOwn(c, s, rs[..n])
  }

  lemma {:induction false} OwnPrefix(c: Config, s: Ref, rs: seq<Request>, pending: bool, n: nat)
    requires OwnOperands(c, s, rs, pending) && n <= |rs|
    ensures OwnOperands(c, s, rs[..n], pending)
    decreases |rs|
  {
    hide RunOne;
    if n > 0 {
      var s1 := RunOne(c, s, rs[0].code, UsedOperand(s, rs[0], pending));
      assert rs[..n][1..] == rs[1..][..n - 1];
      if s1.Some? {
        OwnPrefix(c, s1.value, rs[1..], LeavesPending(c.port, rs[0].code), n - 1);
      }
    }
  }

  lemma OwnAlike(c: Config, s: Ref, rs: seq<Request>, pending: bool)
    requires OwnOperands(c, s, rs, pending)
    ensures AlikeThroughout(c, s, rs, pending)
  {
    forall n | 0 <= n <= |rs|
      ensures RunUsed(c, s, rs[..n], pending) == RunOwn(c, s, rs[..n])
    {
      OwnPrefix(c, s, rs, pending, n);
      OwnOperandsSuffice(c, s, rs[..n], pending);
    }
  }

  /** Then the command does what the host asked for. */
  lemma {:induction false} OwnOperandsSuffice(c: Config, s: Ref, rs: seq<Request>, pending: bool)
    requires OwnOperands(c, s, rs, pending)
    ensures RunUsed(c, s, rs, pending) == RunOwn(c, s, rs)
    decreases |rs|
  {
    if rs != [] {
      SameOperand(c, s, rs[0].code, UsedOperand(s, rs[0], pending), rs[0].operand);
      var s1 := RunOne(c, s, rs[0].code, rs[0].operand);
      if s1.Some? {
        OwnOperandsSuffice(c, s1.value, rs[1..], LeavesPending(c.port, rs[0].code));
      }
    }
  }

  /** What a host knows, without the target, of the word a request would find in place of its operand. */
  datatype Pend = Nothing | Zero | Anything

  function PendAfter(port: Port, request: byte): (p: Pend) {
    if !LeavesPending(port, request) then Nothing
    else if IsRdBuff(AccessOf(request, 0)) then Zero
    else Anything
  }

  /** What the host knows of SW-DP RDBUFF, or of the latest posted read: its value, or the values (mask, value) that
      matches have since asked of it. */
  datatype Held = Fixed(v: word) | Free(wants: seq<(word, word)>)

  ghost predicate Fulfils(held: Held, v: word) {
    match held
    case Fixed(u) => v == u
    case Free(wants) => forall want <- wants :: And(v, want.0) == want.1
  }

  ghost predicate Possible(held: Held) {
    exists v: word :: Fulfils(held, v)
  }

  ghost function Choice(held: Held): (v: word)
    requires Possible(held)
    ensures Fulfils(held, v)
  {
    var v: word :| Fulfils(held, v);
    v
  }

  predicate ReadsBuffer(r: Request) {
    IsRdBuff(AccessOf(r.code, 0))
  }

  /** Some target can answer a value match. One that asks for bits outside the mask never ends well, nor does one on
      RDBUFF that asks of it what it cannot hold. */
  ghost predicate CanMatch(port: Port, mask: word, held: Held, r: Request) {
    if !ReadsBuffer(r) then And(r.operand, mask) == r.operand
    else if port == Jtag then r.operand == 0
    else exists v: word :: Fulfils(held, v) && And(v, mask) == r.operand
  }

  function MaskAfter(mask: word, r: Request): (m: word) {
    if !IsRead(r.code) && IsMatchMask(r.code) then r.operand else mask
  }

  function HeldAfter(port: Port, mask: word, held: Held, r: Request): (h: Held) {
    if !IsRead(r.code) then held
    else if !ReadsBuffer(r) then if IsPosted(port, r.code) then Free([]) else held
    else if port == Swd && IsMatchValue(r.code) && held.Free? then Free(held.wants + [(mask, r.operand)])
    else held
  }

  predicate Matches(r: Request) {
    IsRead(r.code) && IsMatchValue(r.code)
  }

  /** The request has an operand and finds another word in its place. */
  predicate Clobbered(r: Request, pend: Pend) {
    CarriesData(r.code) && (pend == Anything || (pend == Zero && r.operand != 0))
  }

  /** The check a host can make on its request list: no request with an operand directly after a posted read (save a
      zero operand after a JTAG read of RDBUFF, which reads zero), as far as the list can be carried out at all. */
  ghost predicate Safe(port: Port, mask: word, held: Held, rs: seq<Request>, pend: Pend)
    decreases |rs|
  {
    rs == [] || (
      && !Clobbered(rs[0], pend)
      && ((Matches(rs[0]) && !CanMatch(port, mask, held, rs[0]))
          || Safe(port, MaskAfter(mask, rs[0]), HeldAfter(port, mask, held, rs[0]), rs[1..],
               PendAfter(port, rs[0].code))))
  }

  lemma {:induction false} AndTwice(x: nat, m: nat)
    ensures And(And(x, m), m) == And(x, m)
  {
    if x != 0 && m != 0 {
      AndTwice(x / 2, m / 2);
      var y := And(x, m);
      assert y / 2 == And(x / 2, m / 2) && (y % 2 == 1) == (x % 2 == 1 && m % 2 == 1);
    }
  }

  /** Matches on RDBUFF leave it alone, and end well only if it holds what they ask for. */
  lemma {:induction false} BufferMatch(c: Config, s: Ref, r: Request, tries: nat)
    requires c.port != Disabled && ReadsBuffer(r)
    ensures var v := if c.port == Jtag then 0 else s.rdbuff;
      MatchOne(c, s, r.code, r.operand, tries) == if And(v, s.mask) == r.operand then Some(s) else None
    decreases tries
  {
    hide And;
    if tries > 0 {
      BufferMatch(c, s, r, tries - 1);
    }
  }

  lemma {:induction false} MatchImpossible(c: Config, s: Ref, held: Held, r: Request, tries: nat)
    requires c.port != Disabled && !CanMatch(c.port, s.mask, held, r) && (c.port == Swd ==> Fulfils(held, s.rdbuff))
    ensures MatchOne(c, s, r.code, r.operand, tries).None?
    decreases tries
  {
    hide And, Fulfils;
    AndOfZero(s.mask);
    if ReadsBuffer(r) {
      BufferMatch(c, s, r, tries);
    } else {
      var (s1, v) := ReadOne(c, s, AccessOf(r.code, 0));
      AndTwice(v, s.mask);
      if tries > 0 {
        MatchElsewhere(c, s1, r, tries - 1);
      }
    }
  }

  lemma {:induction false} MatchElsewhere(c: Config, s: Ref, r: Request, tries: nat)
    requires And(r.operand, s.mask) != r.operand
    ensures !ReadsBuffer(r) ==> MatchOne(c, s, r.code, r.operand, tries).None?
    decreases tries
  {
    var (s1, v) := ReadOne(c, s, AccessOf(r.code, 0));
    AndTwice(v, s.mask);
    if tries > 0 {
      MatchElsewhere(c, s1, r, tries - 1);
    }
  }

  /** A match on a DP register leaves RDBUFF alone. */
  lemma {:induction false} DirectMatchKeeps(c: Config, s: Ref, request: byte, value: word, tries: nat)
    requires c.port == Swd && !IsAp(request)
    ensures var r := MatchOne(c, s, request, value, tries); r.Some? ==> r.value.rdbuff == s.rdbuff
    decreases tries
  {
    hide And;
    var (s1, _) := ReadOne(c, s, AccessOf(request, 0));
    if tries > 0 {
      DirectMatchKeeps(c, s1, request, value, tries - 1);
    }
  }

  /** held and pend describe what the reference says is in RDBUFF and pending. */
  ghost predicate Knows(port: Port, s: Ref, held: Held, pend: Pend, pending: bool) {
    && (port == Swd ==> Fulfils(held, s.rdbuff))
    && pending == (pend != Nothing)
    && (pending ==> s.words != [])
    && (pend == Zero ==> s.words[|s.words| - 1] == 0)
  }

  lemma KnowsAfter(c: Config, s: Ref, held: Held, r: Request, operand: word)
    requires c.port != Disabled && RunOne(c, s, r.code, operand).Some? && (c.port == Swd ==> Fulfils(held, s.rdbuff))
    requires CarriesData(r.code) ==> operand == r.operand
    ensures var s1 := RunOne(c, s, r.code, operand).value;
      && Knows(c.port, s1, HeldAfter(c.port, s.mask, held, r), PendAfter(c.port, r.code), LeavesPending(c.port, r.code))
      && s1.mask == MaskAfter(s.mask, r)
  {
    hide And, MatchOne;
    MatchOneKeeps(c, s, r.code, operand, c.matchRetries);
    if Matches(r) {
      if ReadsBuffer(r) {
        BufferMatch(c, s, r, c.matchRetries);
      } else if c.port == Swd && !IsAp(r.code) {
        DirectMatchKeeps(c, s, r.code, operand, c.matchRetries);
      }
    }
  }

  /** A list that passes the check is safe whatever the target answers. */
  lemma {:induction false} SafeSuffices(c: Config, s: Ref, rs: seq<Request>, held: Held, pend: Pend, pending: bool)
    requires c.port != Disabled && Safe(c.port, s.mask, held, rs, pend) && Knows(c.port, s, held, pend, pending)
    ensures OwnOperands(c, s, rs, pending)
    decreases |rs|
  {
    hide And, MatchOne, RunOne, CanMatch, MaskAfter, PendAfter, HeldAfter, Fulfils;
    if rs != [] {
      var r := rs[0];
      var used := UsedOperand(s, r, pending);
      var s1 := RunOne(c, s, r.code, used);
      if s1.Some? {
        KnowsAfter(c, s, held, r, used);
        if Matches(r) && !CanMatch(c.port, s.mask, held, r) {
          MatchImpossible(c, s, held, r, c.matchRetries);
          assert s1 == MatchOne(c, s, r.code, r.operand, c.matchRetries) by { RunOneMatch(c, s, r.code, used); }
          assert false;
        }
        SafeSuffices(c, s1.value, rs[1..], HeldAfter(c.port, s.mask, held, r), PendAfter(c.port, r.code),
          LeavesPending(c.port, r.code));
      }
    }
  }

  lemma RunOneMatch(c: Config, s: Ref, request: byte, operand: word)
    requires IsRead(request) && IsMatchValue(request)
    ensures RunOne(c, s, request, operand) == MatchOne(c, s, request, operand, c.matchRetries)
  {
  }

  // Conversely, a list that fails the check is got wrong by some target.

  /** The answers with which a target carries out r; v is the one that stays in RDBUFF. */
  function AnswersFor(port: Port, r: Request, v: word): (ws: seq<word>) {
    if !IsRead(r.code) then if IsMatchMask(r.code) then [] else [0]
    else if ReadsBuffer(r) then []
    else if IsMatchValue(r.code) then [r.operand] + if IsPosted(port, r.code) then [v] else []
    else if IsPosted(port, r.code) then [v] else [0]
  }

  /** Whether r puts a new value into RDBUFF, or into its place on JTAG. */
  predicate Renews(port: Port, r: Request) {
    IsRead(r.code) && !ReadsBuffer(r) && IsPosted(port, r.code)
  }

  /** The first answer to a request that finds another word in place of its operand: one that its own operand matches,
      or, if it can match none, one that the other word does. */
  function Telling(mask: word, r: Request): (v: word) {
    if And(r.operand, mask) == r.operand then r.operand else 0
  }

  /** The word that comes in place of an operand. */
  function Other(operand: word): (v: word)
    ensures v != operand
  {
    if operand == 0 then 1 else 0
  }

  /** The answers of a target that lets every match succeed, until it has given a posted read a word that differs from
      the operand of the request after it; and the value RDBUFF must have for that to begin with. */
  ghost function Script(port: Port, mask: word, held: Held, rs: seq<Request>, pend: Pend): (r: (seq<word>, word))
    requires Possible(held) && (pend == Anything ==> held == Free([]))
    ensures Fulfils(held, r.1)
    ensures rs != [] && pend == Anything && CarriesData(rs[0].code) ==> r.1 != rs[0].operand
    decreases |rs|
  {
    if rs == [] then ([], Choice(held))
    else if Clobbered(rs[0], pend) then
      ([Telling(mask, rs[0])], if pend == Anything then Other(rs[0].operand) else Choice(held))
    else if Matches(rs[0]) && !CanMatch(port, mask, held, rs[0]) then ([], Choice(held))
    else
      HeldPossible(port, mask, held, rs[0]);
      var (ws, v) := Script(port, MaskAfter(mask, rs[0]), HeldAfter(port, mask, held, rs[0]), rs[1..],
        PendAfter(port, rs[0].code));
      (AnswersFor(port, rs[0], v) + ws, if Renews(port, rs[0]) then Choice(held) else v)
  }

  lemma HeldPossible(port: Port, mask: word, held: Held, r: Request)
    requires Possible(held) && (Matches(r) ==> CanMatch(port, mask, held, r))
    ensures Possible(HeldAfter(port, mask, held, r))
    ensures PendAfter(port, r.code) == Anything ==> HeldAfter(port, mask, held, r) == Free([])
    ensures !Renews(port, r) ==> forall v: word :: Fulfils(HeldAfter(port, mask, held, r), v) ==> Fulfils(held, v)
    ensures port == Swd && Matches(r) && ReadsBuffer(r) ==>
      forall v: word :: Fulfils(HeldAfter(port, mask, held, r), v) ==> And(v, mask) == r.operand
  {
    hide And;
    var after := HeldAfter(port, mask, held, r);
    if after == Free([]) {
      assert Fulfils(after, 0);
    } else if after != held {
      var v: word :| Fulfils(held, v) && And(v, mask) == r.operand;
      assert Fulfils(after, v);
      assert after.wants[..|held.wants|] == held.wants && after.wants[|held.wants|] == (mask, r.operand);
      forall u: word | Fulfils(after, u)
        ensures Fulfils(held, u) && And(u, mask) == r.operand
      {
        forall want <- held.wants
          ensures And(u, want.0) == want.1
        {
          assert want in after.wants;
        }
      }
    }
  }

  /** w gives these answers to the accesses that follow the first base ones. */
  ghost predicate Plays(w: World, base: nat, script: seq<word>) {
    forall log: seq<Access> :: base < |log| <= base + |script| ==> w.answer(log) == script[|log| - base - 1]
  }

  function Player(base: nat, script: seq<word>): (w: World) {
    World(
      _ => ACK_OK,
      (log: seq<Access>) => if base < |log| <= base + |script| then script[|log| - base - 1] else 0,
      _ => [])
  }

  lemma PlaysRest(w: World, base: nat, a: seq<word>, b: seq<word>)
    requires Plays(w, base, a + b)
    ensures Plays(w, base, a) && Plays(w, base + |a|, b)
  {
    forall log: seq<Access> | base < |log| <= base + |a|
      ensures w.answer(log) == a[|log| - base - 1]
    {
      assert (a + b)[|log| - base - 1] == a[|log| - base - 1];
    }
    forall log: seq<Access> | base + |a| < |log| <= base + |a| + |b|
      ensures w.answer(log) == b[|log| - (base + |a|) - 1]
    {
      assert (a + b)[|log| - base - 1] == b[|log| - (base + |a|) - 1];
    }
  }

  /** With those answers a request is carried out. */
  lemma PlayOne(c: Config, s: Ref, r: Request, v: word)
    requires c.port != Disabled && Plays(c.w, |s.log|, AnswersFor(c.port, r, v))
    requires Matches(r) && !ReadsBuffer(r) ==> And(r.operand, s.mask) == r.operand
    requires Matches(r) && ReadsBuffer(r) ==> And(if c.port == Jtag then 0 else s.rdbuff, s.mask) == r.operand
    ensures var s1 := RunOne(c, s, r.code, r.operand);
      && s1.Some? && |s1.value.log| == |s.log| + |AnswersFor(c.port, r, v)|
      && (c.port == Swd ==> s1.value.rdbuff == if Renews(c.port, r) then v else s.rdbuff)
      && (PendAfter(c.port, r.code) == Anything ==> s1.value.words[|s1.value.words| - 1] == v)
  {
    hide And;
    if Matches(r) && ReadsBuffer(r) {
      BufferMatch(c, s, r, c.matchRetries);
    }
  }

  lemma AndOfZero(m: nat)
    ensures And(0, m) == 0
  {
  }

  /** With another word in place of its operand a request leads somewhere else. */
  lemma OtherwiseElsewhere(c: Config, s: Ref, r: Request)
    requires c.port != Disabled && CarriesData(r.code) && Plays(c.w, |s.log|, [Telling(s.mask, r)])
    requires c.port == Swd && ReadsBuffer(r) ==> s.rdbuff == Other(r.operand)
    ensures RunOne(c, s, r.code, Other(r.operand)) != RunOne(c, s, r.code, r.operand)
  {
    hide And, MatchOne, Plays;
    if Matches(r) {
      if ReadsBuffer(r) {
        BufferElsewhere(c, s, r);
      } else {
        MatchedElsewhere(c, s, r);
      }
    } else if !IsMatchMask(r.code) {
      var a, b := AccessOf(r.code, Other(r.operand)), AccessOf(r.code, r.operand);
      assert (s.log + [a])[|s.log|] == a && (s.log + [b])[|s.log|] == b;
    }
  }

  lemma BufferElsewhere(c: Config, s: Ref, r: Request)
    requires c.port != Disabled && Matches(r) && ReadsBuffer(r) && (c.port == Swd ==> s.rdbuff == Other(r.operand))
    ensures MatchOne(c, s, r.code, Other(r.operand), c.matchRetries)
      != MatchOne(c, s, r.code, r.operand, c.matchRetries)
  {
    hide MatchOne;
    AndOfZero(s.mask);
    BufferMatch(c, s, r, c.matchRetries);
    BufferMatch(c, s, r.(operand := Other(r.operand)), c.matchRetries);
    if r.operand == 0 {
      AndOne(s.mask);
    }
  }

  lemma AndOne(m: word)
    ensures And(1, m) == 0 || And(1, m) == 1
  {
    AndOfZero(m / 2);
  }

  lemma MatchedElsewhere(c: Config, s: Ref, r: Request)
    requires c.port != Disabled && Matches(r) && !ReadsBuffer(r) && Plays(c.w, |s.log|, [Telling(s.mask, r)])
    ensures MatchOne(c, s, r.code, Other(r.operand), c.matchRetries)
      != MatchOne(c, s, r.code, r.operand, c.matchRetries)
  {
    hide And;
    AndOfZero(s.mask);
    var (s1, v) := ReadOne(c, s, AccessOf(r.code, 0));
    assert v == Telling(s.mask, r);
    if And(r.operand, s.mask) == r.operand {
      if c.matchRetries > 0 {
        MatchReads(c, s1, r, Other(r.operand), c.matchRetries - 1);
      }
    } else {
      MatchElsewhere(c, s, r, c.matchRetries);
    }
  }

  /** A match makes at least one read, and one more where reads are posted. */
  lemma {:induction false} MatchReads(c: Config, s: Ref, r: Request, value: word, tries: nat)
    requires !ReadsBuffer(r)
    ensures var m := MatchOne(c, s, r.code, value, tries);
      m.Some? ==> |m.value.log| > |s.log| + if IsPosted(c.port, r.code) then 1 else 0
    decreases tries
  {
    hide And;
    if tries > 0 {
      MatchReads(c, ReadOne(c, s, AccessOf(r.code, 0)).0, r, value, tries - 1);
    }
  }

  lemma RunSingle(c: Config, s: Ref, r: Request, pending: bool)
    ensures RunUsed(c, s, [r], pending) == RunOne(c, s, r.code, UsedOperand(s, r, pending))
    ensures RunOwn(c, s, [r]) == RunOne(c, s, r.code, r.operand)
  {
    hide RunOne;
    assert [r][1..] == [];
  }

  /** A target that plays the script makes the two differ after some n requests. */
  lemma {:induction false} UnsafeReached(c: Config, s: Ref, rs: seq<Request>, held: Held, pend: Pend, pending: bool)
    returns (n: nat)
    requires c.port != Disabled && !Safe(c.port, s.mask, held, rs, pend) && Knows(c.port, s, held, pend, pending)
    requires Possible(held) && (pend == Anything ==> held == Free([])) && (pend == Zero ==> c.port == Jtag)
    requires var (ws, v) := Script(c.port, s.mask, held, rs, pend);
      && Plays(c.w, |s.log|, ws) && (c.port == Swd ==> s.rdbuff == v)
      && (pend == Anything ==> s.words[|s.words| - 1] == v)
    ensures n <= |rs| && RunUsed(c, s, rs[..n], pending) != RunOwn(c, s, rs[..n])
    decreases |rs|
  {
    hide And, MatchOne, RunOne, CanMatch, MaskAfter, PendAfter, HeldAfter, AnswersFor, Fulfils, Plays, IsPosted,
      ReadsBuffer, Telling;
    var r := rs[0];
    var used := UsedOperand(s, r, pending);
    if Clobbered(r, pend) {
      n := 1;
      assert rs[..1] == [r];
      RunSingle(c, s, r, pending);
      OtherwiseElsewhere(c, s, r);
    } else {
      var held1, pend1 := HeldAfter(c.port, s.mask, held, r), PendAfter(c.port, r.code);
      HeldPossible(c.port, s.mask, held, r);
      PendZero(c.port, r.code);
      var (ws, v) := Script(c.port, MaskAfter(s.mask, r), held1, rs[1..], pend1);
      PlaysRest(c.w, |s.log|, AnswersFor(c.port, r, v), ws);
      StepPlayed(c, s, held, r, v);
      SameOperand(c, s, r.code, used, r.operand);
      var s1 := RunOne(c, s, r.code, r.operand).value;
      KnowsAfter(c, s, held, r, r.operand);
      n := UnsafeReached(c, s1, rs[1..], held1, pend1, LeavesPending(c.port, r.code));
      n := n + 1;
      assert rs[..n][1..] == rs[1..][..n - 1];
    }
  }

  lemma PendZero(port: Port, request: byte)
    requires port != Disabled
    ensures PendAfter(port, request) == Zero ==> port == Jtag
  {
  }

  /** One request of the script, given the value v it leaves behind. */
  lemma StepPlayed(c: Config, s: Ref, held: Held, r: Request, v: word)
    requires c.port != Disabled && Plays(c.w, |s.log|, AnswersFor(c.port, r, v))
    requires Possible(held) && (Matches(r) ==> CanMatch(c.port, s.mask, held, r))
    requires Fulfils(HeldAfter(c.port, s.mask, held, r), v) && (c.port == Swd && !Renews(c.port, r) ==> s.rdbuff == v)
    ensures var s1 := RunOne(c, s, r.code, r.operand);
      && s1.Some? && |s1.value.log| == |s.log| + |AnswersFor(c.port, r, v)|
      && (c.port == Swd ==> s1.value.rdbuff == v)
      && (PendAfter(c.port, r.code) == Anything ==> s1.value.words[|s1.value.words| - 1] == v)
  {
    hide And, Fulfils, Plays, AnswersFor, RunOne, HeldAfter;
    HeldPossible(c.port, s.mask, held, r);
    AndOfZero(s.mask);
    PlayOne(c, s, r, v);
  }

  /** On every target a request list leads, after each of its requests, to the state (accesses made, mask, words) that
      the operands of the list lead to, if and only if it passes the check. */
  lemma OperandsOwnIffSafe(port: Port, waitRetries: nat, matchRetries: nat, s: Ref, rs: seq<Request>)
    requires port != Disabled
    ensures Safe(port, s.mask, Fixed(s.rdbuff), rs, Nothing)
      <==> forall w: World :: AlikeThroughout(Config(w, port, waitRetries, matchRetries), s, rs, false)
  {
    hide OwnOperands, Safe;
    var held := Fixed(s.rdbuff);
    assert Fulfils(held, s.rdbuff);
    if Safe(port, s.mask, held, rs, Nothing) {
      forall w: World
        ensures AlikeThroughout(Config(w, port, waitRetries, matchRetries), s, rs, false)
      {
        SafeSuffices(Config(w, port, waitRetries, matchRetries), s, rs, held, Nothing, false);
        OwnAlike(Config(w, port, waitRetries, matchRetries), s, rs, false);
      }
    } else {
      var w := Player(|s.log|, Script(port, s.mask, held, rs, Nothing).0);
      var n := UnsafeReached(Config(w, port, waitRetries, matchRetries), s, rs, held, Nothing, false);
      assert !AlikeThroughout(Config(w, port, waitRetries, matchRetries), s, rs, false);
    }
  }
}
