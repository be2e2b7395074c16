/** The debug port of the target at the level of register accesses, as section B2 and chapter B3 of ARM IHI 0031
    describe it. Nothing here is taken from the probe's code.

    What a target does is left open: a World fixes, for each wire transaction, the acknowledge it draws and the
    noise on its data phase, and for each history of register accesses the value the last of them reads. Theorems
    quantify over all worlds. */
module DebugPort {
  import opened Bits

  type ack3 = n: nat | n < 8

  const ACK_OK := 1
  const ACK_WAIT := 2
  const ACK_FAULT := 4
  /** not sent by a target: the probe reports a read with bad parity this way */
  const ACK_PARITY := 8

  datatype Access = Access(ap: bool, rnw: bool, a2: bool, a3: bool, data: word)

  datatype World = World(
    ack: nat -> ack3,
    answer: seq<Access> -> word,
    noise: nat -> seq<bool>)

  /** log: every register access performed so far; readBuf: the result of the latest posted access;
      attempts: wire transactions the port has answered, with whatever acknowledge. */
  datatype Dp = Dp(log: seq<Access>, readBuf: word, attempts: nat)

  datatype Reply = Reply(ack: nat, data: word, dp: Dp)

  predicate IsAp(request: byte) { request % 2 == 1 }

  predicate IsRead(request: byte) { request / 2 % 2 == 1 }

  predicate A2(request: byte) { request / 4 % 2 == 1 }

  predicate A3(request: byte) { request / 8 % 2 == 1 }

  function AccessOf(request: byte, data: word): (a: Access) {
    Access(IsAp(request), IsRead(request), A2(request), A3(request), if IsRead(request) then 0 else data)
  }

  /** The byte a host sends for an access has APnDP, RnW, A2 and A3 from bit 0 on, and four bits more. */
  lemma RequestDecoded(ap: bool, rnw: bool, a2: bool, a3: bool, high: nat, data: word)
    requires high < 16
    ensures AccessOf(ToInt(ap) + 2 * ToInt(rnw) + 4 * ToInt(a2) + 8 * ToInt(a3) + 16 * high, data)
      == Access(ap, rnw, a2, a3, if rnw then 0 else data)
  {
    var request := ToInt(ap) + 2 * ToInt(rnw) + 4 * ToInt(a2) + 8 * ToInt(a3) + 16 * high;
    assert request / 2 == ToInt(rnw) + 2 * ToInt(a2) + 4 * ToInt(a3) + 8 * high;
    assert request / 4 == ToInt(a2) + 2 * ToInt(a3) + 4 * high;
    assert request / 8 == ToInt(a3) + 2 * high;
  }

  /** Reading DP RDBUFF returns a posted result and touches no other register. */
  predicate IsRdBuff(a: Access) { !a.ap && a.rnw && a.a2 && a.a3 }

  /** JTAG-DP: every access is posted, RDBUFF itself reads as zero. */
  function JtagAccept(w: World, dp: Dp, a: Access): (r: Dp) {
    if IsRdBuff(a) then dp.(readBuf := 0)
    else dp.(log := dp.log + [a], readBuf := w.answer(dp.log + [a]))
  }

  /** One 35-bit DPACC or APACC scan: the data shifted out is the result of the previous access, and the access
      shifted in is performed only if OK was shifted out. */
  function JtagTransact(w: World, dp: Dp, request: byte, data: word): (r: Reply)
  {
    var ack := w.ack(dp.attempts);
    var tried := dp.(attempts := dp.attempts + 1);
    if ack == ACK_OK then
      Reply(ack, if IsRead(request) then dp.readBuf else data, JtagAccept(w, tried, AccessOf(request, data)))
    else
      Reply(ack, data, tried)
  }

  /** SW-DP: AP reads are posted, DP reads answer at once, RDBUFF returns the last AP read. */
  function SwdAccept(w: World, dp: Dp, a: Access): (r: Dp) {
    if IsRdBuff(a) then dp
    else if a.ap && a.rnw then dp.(log := dp.log + [a], readBuf := w.answer(dp.log + [a]))
    else dp.(log := dp.log + [a])
  }

  function SwdReadValue(w: World, dp: Dp, a: Access): (v: word) {
    if a.ap || IsRdBuff(a) then dp.readBuf else w.answer(dp.log + [a])
  }

  /** The 33 bits of an SWD data phase: the word and its even parity bit. */
  function Frame(v: word): (bits: seq<bool>)
    ensures |bits| == 33
  {
    BitsOf(v, 32) + [Odd(BitsOf(v, 32))]
  }

  /** Parity is even: word and parity bit together have an even number of ones. */
  lemma FrameEven(v: word)
    ensures !Odd([]) && Odd([true]) && !Odd(Frame(v)) && Frame(v)[..32] == BitsOf(v, 32)
  {
    OddSnoc(BitsOf(v, 32), Odd(BitsOf(v, 32)));
  }

  function NoiseOn(noise: seq<bool>, n: nat): (flips: seq<bool>)
    ensures |flips| == n
  {
    seq(n, i requires 0 <= i < n => i < |noise| && noise[i])
  }

  function Xor(a: seq<bool>, b: seq<bool>): (r: seq<bool>)
    requires |a| == |b|
    ensures |r| == |a|
  {
    seq(|a|, i requires 0 <= i < |a| => a[i] != b[i])
  }

  /** The frame a read puts on the wire, as the probe sees it. */
  function ReadFrame(w: World, dp: Dp, a: Access): (bits: seq<bool>)
    ensures |bits| == 33
  {
    Xor(Frame(SwdReadValue(w, dp, a)), NoiseOn(w.noise(dp.attempts), 33))
  }

  /** One SWD packet: an accepted read that arrives with odd overall parity is reported as ACK_PARITY although
      the target has performed it. */
  function SwdTransact(w: World, dp: Dp, request: byte, data: word): (r: Reply)
  {
    var ack := w.ack(dp.attempts);
    var tried := dp.(attempts := dp.attempts + 1);
    var a := AccessOf(request, data);
    if ack != ACK_OK then Reply(ack, data, tried)
    else if IsRead(request) then
      var frame := ReadFrame(w, dp, a);
      Reply(if Odd(frame) then ACK_PARITY else ACK_OK, WordOf(frame[..32]), SwdAccept(w, tried, a))
    else Reply(ack, data, SwdAccept(w, tried, a))
  }

  lemma {:induction false} OddXor(a: seq<bool>, b: seq<bool>)
    requires |a| == |b|
    ensures Odd(Xor(a, b)) == (Odd(a) != Odd(b))
  {
    if a != [] {
      OddXor(a[1..], b[1..]);
      assert Xor(a, b)[1..] == Xor(a[1..], b[1..]);
    }
  }

  /** An accepted SWD read is reported as bad exactly when an odd number of its 33 bits was flipped on the way, so
      whenever one was; it is reported with the target's own word when none was. Either way the target has
      performed the access. */
  lemma ReadNoise(w: World, dp: Dp, request: byte, data: word)
    requires IsRead(request) && w.ack(dp.attempts) == ACK_OK
    ensures var r := SwdTransact(w, dp, request, data);
      var flips := NoiseOn(w.noise(dp.attempts), 33);
      && (r.ack == ACK_PARITY <==> Odd(flips))
      && (r.ack != ACK_PARITY ==> r.ack == ACK_OK)
      && (flips == Repeat(false, 33) ==> r.ack == ACK_OK && r.data == SwdReadValue(w, dp, AccessOf(request, data)))
      && r.dp.log == dp.log + if IsRdBuff(AccessOf(request, data)) then [] else [AccessOf(request, data)]
  {
    hide Odd, BitsOf, ValueOf;
    var a := AccessOf(request, data);
    var v := SwdReadValue(w, dp, a);
    var flips := NoiseOn(w.noise(dp.attempts), 33);
    OddXor(Frame(v), flips);
    OddSnoc(BitsOf(v, 32), Odd(BitsOf(v, 32)));
    if flips == Repeat(false, 33) {
      OddOfNone(33);
      assert ReadFrame(w, dp, a) == Frame(v);
      assert Frame(v)[..32] == BitsOf(v, 32);
      WordRoundTrip(v);
    }
  }

  lemma {:induction false} OddOfNone(n: nat)
    ensures !Odd(Repeat(false, n))
  {
    if n > 0 {
      OddOfNone(n - 1);
      assert Repeat(false, n)[1..] == Repeat(false, n - 1);
    }
  }

  /** A single flipped bit is an odd number of them. */
  lemma {:induction false} OddOfOne(n: nat, k: nat)
    requires k < n
    ensures Odd(Repeat(false, n)[k := true])
  {
    var flips := Repeat(false, n)[k := true];
    if k == 0 {
      assert flips[1..] == Repeat(false, n - 1);
      OddOfNone(n - 1);
    } else {
      assert flips[1..] == Repeat(false, n - 1)[k - 1 := true];
      OddOfOne(n - 1, k - 1);
    }
  }

  /** So a read in which any one bit of word or parity is flipped is reported as bad. */
  lemma SingleFlipReported(w: World, dp: Dp, request: byte, data: word, k: nat)
    requires IsRead(request) && w.ack(dp.attempts) == ACK_OK && k < 33
    requires NoiseOn(w.noise(dp.attempts), 33) == Repeat(false, 33)[k := true]
    ensures SwdTransact(w, dp, request, data).ack == ACK_PARITY
  {
    hide Odd, SwdTransact;
    OddOfOne(33, k);
    ReadNoise(w, dp, request, data);
  }
}
