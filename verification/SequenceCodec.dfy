/** Bit sequences packed into bytes, least significant bit first: what JTAG_Sequence and SWD_Sequence carry in both
    directions (firmware/src/dap/commands_jtag.c, firmware/src/dap/commands_swd.c). */
module SequenceCodec {
  import opened Bits
  import opened RingBuffer

  function Unpack(bs: seq<byte>): (bits: seq<bool>)
    ensures |bits| == 8 * |bs|
  {
    if bs == [] then [] else BitsOf(bs[0], 8) + Unpack(bs[1..])
  }

  function Pack(bits: seq<bool>): (bs: seq<byte>)
    ensures |bs| == (|bits| + 7) / 8
    decreases |bits|
  {
    if bits == [] then [] else
    var n := Min(8, |bits|);
    [ByteOf(bits[..n])] + Pack(bits[n..])
  }

  function ByteOf(bits: seq<bool>): (b: byte)
    requires |bits| <= 8
  {
    Pow2Grows(|bits|, 8);
    assert Pow2(8) == 0x100;
    ValueOf(bits)
  }

  lemma {:induction false} PackUnpack(bs: seq<byte>)
    ensures Pack(Unpack(bs)) == bs
  {
    hide BitsOf, ValueOf;
    if bs != [] {
      var bits := Unpack(bs);
      assert bits[..8] == BitsOf(bs[0], 8) && bits[8..] == Unpack(bs[1..]);
      assert Pow2(8) == 0x100;
      ValueOfBitsOf(bs[0], 8);
      PackUnpack(bs[1..]);
    }
  }

  /** What has been packed can be unpacked; the last byte is padded with zeros. */
  lemma {:induction false} UnpackPack(bits: seq<bool>)
    ensures Unpack(Pack(bits)) == bits + Repeat(false, 8 * |Pack(bits)| - |bits|)
    decreases |bits|
  {
    hide BitsOf, ValueOf;
    if bits != [] {
      var n := Min(8, |bits|);
      UnpackPack(bits[n..]);
      PaddedByte(bits[..n]);
      assert bits == bits[..n] + bits[n..];
      if |bits| < 8 {
        assert Pack(bits[n..]) == [];
      } else {
        assert Repeat(false, 0) == [];
      }
    }
  }

  lemma PaddedByte(bits: seq<bool>)
    requires |bits| <= 8
    ensures BitsOf(ByteOf(bits), 8) == bits + Repeat(false, 8 - |bits|)
  {
    hide BitsOf, ValueOf;
    ValueOfPadded(bits, 8 - |bits|);
    BitsOfValueOf(bits + Repeat(false, 8 - |bits|));
  }

  lemma {:induction false} ValueOfPadded(bits: seq<bool>, n: nat)
    ensures ValueOf(bits + Repeat(false, n)) == ValueOf(bits)
  {
    if bits == [] {
      assert [] + Repeat(false, n) == Repeat(false, n);
      if n > 0 {
        ValueOfPadded([], n - 1);
        assert Repeat(false, n)[1..] == Repeat(false, n - 1) == [] + Repeat(false, n - 1);
      }
    } else {
      ValueOfPadded(bits[1..], n);
      assert (bits + Repeat(false, n))[1..] == bits[1..] + Repeat(false, n);
    }
  }

  lemma {:induction false} PackAppend(a: seq<bool>, b: seq<bool>)
    requires |a| % 8 == 0
    ensures Pack(a + b) == Pack(a) + Pack(b)
    decreases |a|
  {
    hide ByteOf, ValueOf;
    if a == [] {
      assert a + b == b;
    } else {
      assert (a + b)[..8] == a[..8] && (a + b)[8..] == a[8..] + b;
      PackAppend(a[8..], b);
      assert Pack(a) == [ByteOf(a[..8])] + Pack(a[8..]);
      assert Pack(a + b) == [ByteOf(a[..8])] + Pack(a[8..] + b);
    }
  }

  lemma {:induction false} UnpackAt(bs: seq<byte>, j: nat, n: nat)
    requires j < |bs| && n <= 8
    ensures Unpack(bs)[8 * j..8 * j + n] == BitsOf(bs[j], n)
  {
    hide BitsOf;
    if j == 0 {
      PrefixOfBits(bs[0], n, 8);
      assert Unpack(bs)[..n] == BitsOf(bs[0], 8)[..n];
    } else {
      UnpackAt(bs[1..], j - 1, n);
      assert Unpack(bs)[8 * j..8 * j + n] == Unpack(bs[1..])[8 * (j - 1)..8 * (j - 1) + n];
    }
  }

  lemma {:induction false} PrefixOfBits(v: nat, n: nat, m: nat)
    requires n <= m
    ensures BitsOf(v, m)[..n] == BitsOf(v, n)
    decreases m - n
  {
    if n < m {
      PrefixOfBits(v, n + 1, m);
      BitsPrefix(v, n);
      assert BitsOf(v, m)[..n] == BitsOf(v, m)[..n + 1][..n];
    }
  }

  /** The bits the first j bytes stand for, cut off after cycles. */
  function FirstBits(items: seq<byte>, j: nat, cycles: nat): (bits: seq<bool>)
    requires j <= |items|
  {
    Unpack(items[..j])[..Min(8 * j, cycles)]
  }

  lemma UnpackPrefix(items: seq<byte>, j: nat)
    requires j < |items|
    ensures Unpack(items[..j + 1])[..8 * j] == Unpack(items[..j])
  {
    assert items[..j + 1] == items[..j] + [items[j]];
    UnpackSplit(items[..j], [items[j]]);
  }

  lemma {:induction false} UnpackSplit(a: seq<byte>, b: seq<byte>)
    ensures Unpack(a + b) == Unpack(a) + Unpack(b)
  {
    hide BitsOf;
    if a == [] {
      assert a + b == b;
    } else {
      UnpackSplit(a[1..], b);
      assert (a + b)[1..] == a[1..] + b;
    }
  }

  lemma NextBits(items: seq<byte>, cycles: nat, j: nat, n: nat)
    requires j < |items| && 8 * j < cycles && n == Min(8, cycles - 8 * j)
    ensures FirstBits(items, j + 1, cycles) == FirstBits(items, j, cycles) + BitsOf(items[j], n)
  {
    hide BitsOf, Unpack;
    UnpackAt(items[..j + 1], j, n);
    UnpackPrefix(items, j);
    assert Min(8 * j, cycles) == 8 * j && Min(8 * (j + 1), cycles) == 8 * j + n;
  }

  function ShiftRight(v: nat, n: nat): (r: nat)
    ensures r <= v
  {
    if n == 0 then v else ShiftRight(v / 2, n - 1)
  }

  lemma {:induction false} ShiftedBack(v: nat, n: nat)
    ensures ShiftRight(v * Pow2(n), n) == v
  {
    if n > 0 {
      assert v * Pow2(n) == 2 * (v * Pow2(n - 1));
      ShiftedBack(v, n - 1);
    }
  }

  lemma ByteIsValue(bits: seq<bool>)
    requires |bits| <= 8
    ensures ByteOf(bits) == ValueOf(bits)
  {
  }

  lemma HalfPlus(v: nat, k: nat, b: bool)
    requires k < 8
    ensures v * Pow2(8 - k) / 2 + ToInt(b) * 0x80 == (v + ToInt(b) * Pow2(k)) * Pow2(7 - k)
  {
    assert Pow2(8 - k) == 2 * Pow2(7 - k);
    Pow2Product(k, 7 - k);
    assert Pow2(7) == 0x80;
    assert v * Pow2(8 - k) == 2 * (v * Pow2(7 - k));
  }

  lemma {:induction false} Pow2Product(m: nat, n: nat)
    ensures Pow2(m) * Pow2(n) == Pow2(m + n)
  {
    if m > 0 {
      Pow2Product(m - 1, n);
      assert Pow2(m) * Pow2(n) == 2 * (Pow2(m - 1) * Pow2(n));
    }
  }

  /** What the first byte of a sequence announces: cycles in six bits, 64 as 0, and two flags. */
  datatype RawHead = Head(cycles: nat, tms: bool, capture: bool)
  {
    function Bytes(): (n: nat) {
      (cycles + 7) / 8
    }

    function Encode(): (info: byte)
      requires 1 <= cycles <= 64
    {
      cycles % 64 + 64 * ToInt(tms) + 128 * ToInt(capture)
    }
  }

  type Head = h: RawHead | 1 <= h.cycles <= 64 witness RawHead.Head(1, false, false)

  function HeadOf(info: byte): (h: Head) {
    RawHead.Head(if info % 64 == 0 then 64 else info % 64, info / 64 % 2 == 1, info / 128 == 1)
  }

  lemma HeadEncoded(h: Head)
    ensures HeadOf(h.Encode()) == h
  {
  }

  /** Space for n more bytes. */
  predicate Fits(r: Ring, n: nat) {
    |r.items| + n <= r.cap
  }

  /** One sequence: its first byte and the bytes to be sent, if there are any. */
  datatype Sequence = Sequence(head: Head, data: seq<byte>)
  {
    function Encode(): (bs: seq<byte>) {
      [head.Encode()] + data
    }

    function Bits(): (bits: seq<bool>)
      ensures |data| == head.Bytes() ==> |bits| == head.cycles
    {
      Unpack(data)[..Min(head.cycles, 8 * |data|)]
    }
  }

  /** The bytes that follow a first byte. On JTAG bits travel both ways; on SWD a sequence that captures sends none. */
  function Carried(head: Head, duplex: bool): (n: nat) {
    if duplex || !head.capture then head.Bytes() else 0
  }

  function EncodeAll(seqs: seq<Sequence>): (bs: seq<byte>) {
    if seqs == [] then [] else seqs[0].Encode() + EncodeAll(seqs[1..])
  }

  /** One sequence off the front of items, and what follows it. */
  function One(items: seq<byte>, duplex: bool): (r: Option<(Sequence, seq<byte>)>) {
    if items == [] then None else
    var head := HeadOf(items[0]);
    var m := 1 + Carried(head, duplex);
    if |items| < m then None else Some((Sequence(head, items[1..m]), items[m..]))
  }

  /** n sequences off the front of items, and what follows them. */
  function Split(items: seq<byte>, n: nat, duplex: bool): (r: Option<(seq<Sequence>, seq<byte>)>)
    ensures r.Some? ==> |r.value.0| == n && |r.value.1| <= |items|
    decreases n
  {
    if n == 0 then Some(([], items)) else
    var one := One(items, duplex);
    if one.None? then None else
    var rest := Split(one.value.1, n - 1, duplex);
    if rest.None? then None else Some(([one.value.0] + rest.value.0, rest.value.1))
  }

  /** All of a command's bytes after its id: the count, then the sequences. */
  function Parse(items: seq<byte>, duplex: bool): (r: Option<(seq<Sequence>, seq<byte>)>) {
    if items == [] then None else Split(items[1..], items[0], duplex)
  }

  lemma OneEncoded(s: Sequence, rest: seq<byte>, duplex: bool)
    requires |s.data| == Carried(s.head, duplex)
    ensures One(s.Encode() + rest, duplex) == Some((s, rest))
  {
    hide HeadOf, RawHead.Bytes, RawHead.Encode;
    HeadEncoded(s.head);
    var items := [s.head.Encode()] + s.data + rest;
    assert items[0] == s.head.Encode() && items[1..1 + |s.data|] == s.data && items[1 + |s.data|..] == rest;
  }

  /** What a host encodes is what the probe takes apart, whatever follows it. */
  lemma {:induction false} SplitEncoded(seqs: seq<Sequence>, rest: seq<byte>, duplex: bool)
    requires forall s <- seqs :: |s.data| == Carried(s.head, duplex)
    ensures Split(EncodeAll(seqs) + rest, |seqs|, duplex) == Some((seqs, rest))
  {
    hide One, Carried;
    if seqs == [] {
      assert EncodeAll(seqs) + rest == rest;
    } else {
      var more := EncodeAll(seqs[1..]) + rest;
      assert EncodeAll(seqs) + rest == seqs[0].Encode() + more;
      OneEncoded(seqs[0], more, duplex);
      SplitEncoded(seqs[1..], rest, duplex);
      assert [seqs[0]] + seqs[1..] == seqs;
    }
  }

  /** What one sequence does to the far end of the wires, and the bytes it returns. */
  type Runner<!S> = (S, Sequence) -> (S, seq<byte>)

  function RunAll<S>(f: Runner<S>, s: S, seqs: seq<Sequence>): (r: (S, seq<byte>))
    decreases |seqs|
  {
    if seqs == [] then (s, []) else
    var first := f(s, seqs[0]);
    var rest := RunAll(f, first.0, seqs[1..]);
    (rest.0, first.1 + rest.1)
  }

  /** all is what a command carries, rest what is left of it; the sequences between have taken the far end from start
      to s and returned collected. */
  ghost predicate Ahead<S(!new)>(f: Runner<S>, start: S, s: S,
      all: Option<(seq<Sequence>, seq<byte>)>, rest: Option<(seq<Sequence>, seq<byte>)>, collected: seq<byte>)
  {
    && (all.Some? <==> rest.Some?)
    && (all.Some? ==>
      && all.value.1 == rest.value.1
      && var later := RunAll(f, s, rest.value.0);
        RunAll(f, start, all.value.0) == (later.0, collected + later.1))
  }

  lemma AheadStart<S(!new)>(f: Runner<S>, s: S, all: Option<(seq<Sequence>, seq<byte>)>)
    ensures Ahead(f, s, s, all, all, [])
  {
    if all.Some? {
      var run := RunAll(f, s, all.value.0);
      assert [] + run.1 == run.1;
    }
  }

  /** A sequence that is not there, or returns too much, is the end of the command. */
  lemma AheadStep<S(!new)>(f: Runner<S>, start: S, s: S, all: Option<(seq<Sequence>, seq<byte>)>,
      items: seq<byte>, left: nat, duplex: bool, collected: seq<byte>)
    requires left > 0 && Ahead(f, start, s, all, Split(items, left, duplex), collected)
    ensures var one := One(items, duplex);
      && (one.None? ==> all.None?)
      && (one.Some? ==>
        var (s1, out) := f(s, one.value.0);
        && (all.Some? ==> |collected| + |out| <= |RunAll(f, start, all.value.0).1|)
        && Ahead(f, start, s1, all, Split(one.value.1, left - 1, duplex), collected + out))
  {
    hide One;
    if One(items, duplex).Some? && all.Some? {
      var (one, tail) := One(items, duplex).value;
      var more := Split(tail, left - 1, duplex).value.0;
      assert ([one] + more)[1..] == more;
      var (s1, out) := f(s, one);
      assert collected + (out + RunAll(f, s1, more).1) == collected + out + RunAll(f, s1, more).1;
    }
  }

  lemma AheadEnd<S(!new)>(f: Runner<S>, start: S, s: S, all: Option<(seq<Sequence>, seq<byte>)>,
      items: seq<byte>, duplex: bool, collected: seq<byte>)
    requires Ahead(f, start, s, all, Split(items, 0, duplex), collected)
    ensures all.Some? && all.value.1 == items && RunAll(f, start, all.value.0) == (s, collected)
  {
    assert collected + [] == collected;
  }

  // The commands as a host writes them.

  /** Bit k of a row of bytes: bit k % 8, of that weight, of byte k / 8. */
  predicate BitOf(bs: seq<byte>, k: nat)
    requires k < 8 * |bs|
  {
    bs[k / 8] / Pow2(k % 8) % 2 == 1
  }

  lemma {:induction false} UnpackBit(bs: seq<byte>, k: nat)
    requires k < 8 * |bs|
    ensures Unpack(bs)[k] == BitOf(bs, k)
    decreases k
  {
    hide BitsOf, Pow2;
    if k < 8 {
      BitAt(bs[0], 8, k);
      assert k / 8 == 0 && k % 8 == k;
    } else {
      UnpackBit(bs[1..], k - 8);
      assert (k - 8) / 8 == k / 8 - 1 && (k - 8) % 8 == k % 8;
    }
  }

  /** Bit k of packed bits is bit k; behind the last there are zeros. */
  lemma PackBit(bits: seq<bool>, k: nat)
    requires k < 8 * |Pack(bits)|
    ensures BitOf(Pack(bits), k) == (k < |bits| && bits[k])
  {
    hide Pack, Unpack;
    UnpackBit(Pack(bits), k);
    UnpackPack(bits);
  }

  /** So many clocks, with TMS or in one direction, and the bytes to be sent. */
  datatype Burst = Burst(cycles: nat, tms: bool, capture: bool, data: seq<byte>)
  {
    predicate Proper(duplex: bool) {
      1 <= cycles <= 64 && |data| == if duplex || !capture then (cycles + 7) / 8 else 0
    }
  }

  predicate AllProper(bursts: seq<Burst>, duplex: bool) {
    forall i :: 0 <= i < |bursts| ==> bursts[i].Proper(duplex)
  }

  /** Their bytes: cycles in bits 0 to 5, 64 of them as 0, TMS in bit 6, capture in bit 7, then the data. */
  function Raw(bursts: seq<Burst>): (bs: seq<byte>)
    requires forall i :: 0 <= i < |bursts| ==> 1 <= bursts[i].cycles <= 64
  {
    if bursts == [] then [] else
    [bursts[0].cycles % 64 + 64 * ToInt(bursts[0].tms) + 128 * ToInt(bursts[0].capture)] + bursts[0].data
      + Raw(bursts[1..])
  }

  function Taken(b: Burst): (s: Sequence)
    requires 1 <= b.cycles <= 64
  {
    Sequence(RawHead.Head(b.cycles, b.tms, b.capture), b.data)
  }

  function AllTaken(bursts: seq<Burst>): (seqs: seq<Sequence>)
    requires forall i :: 0 <= i < |bursts| ==> 1 <= bursts[i].cycles <= 64
    ensures |seqs| == |bursts|
  {
    if bursts == [] then [] else [Taken(bursts[0])] + AllTaken(bursts[1..])
  }

  lemma {:induction false} RawEncoded(bursts: seq<Burst>, duplex: bool)
    requires AllProper(bursts, duplex)
    ensures Raw(bursts) == EncodeAll(AllTaken(bursts))
    ensures forall s <- AllTaken(bursts) :: |s.data| == Carried(s.head, duplex)
    decreases |bursts|
  {
    hide HeadOf, RawHead.Encode, RawHead.Bytes, Carried, Taken, Sequence.Encode;
    if bursts != [] {
      RawEncoded(bursts[1..], duplex);
      TakenEncoded(bursts[0], duplex);
      assert AllTaken(bursts)[1..] == AllTaken(bursts[1..]);
      assert AllTaken(bursts)[0] == Taken(bursts[0]);
    }
  }

  lemma TakenEncoded(b: Burst, duplex: bool)
    requires b.Proper(duplex)
    ensures Taken(b).Encode() == [b.cycles % 64 + 64 * ToInt(b.tms) + 128 * ToInt(b.capture)] + b.data
    ensures |Taken(b).data| == Carried(Taken(b).head, duplex)
  {
  }

  /** They are taken off as they were put there. */
  lemma RawParsed(bursts: seq<Burst>, rest: seq<byte>, duplex: bool)
    requires AllProper(bursts, duplex) && |bursts| < 0x100
    ensures Parse([|bursts|] + Raw(bursts) + rest, duplex) == Some((AllTaken(bursts), rest))
  {
    hide Split, Raw, AllTaken, EncodeAll, Carried;
    RawEncoded(bursts, duplex);
    SplitEncoded(AllTaken(bursts), rest, duplex);
    assert ([|bursts|] + Raw(bursts) + rest)[1..] == Raw(bursts) + rest;
  }
}
