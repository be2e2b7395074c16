/** firmware/src/utf8.c: the UTF-8 coding of command ids (section 3 of RFC 3629). */
module Utf8 {
  import opened Bits
  import opened RingBuffer
  import opened Status

  const MAX_VALUE: nat := 0x10ffff

  type scalar = v: nat | v <= MAX_VALUE

  datatype Decoded = Decoded(len: nat, value: nat) | Failed(error: Error)

  /** The number of bytes of the shortest form. */
  function Length(val: nat): (n: nat)
    ensures 1 <= n <= 4
  {
    if val <= 0x7f then 1 else if val <= 0x7ff then 2 else if val <= 0xffff then 3 else 4
  }

  /** val without its low k groups of six bits. */
  function Shr(val: nat, k: nat): (v: nat) {
    if k == 0 then val else Shr(val / 64, k - 1)
  }

  /** The leading ones of a first byte that announces n bytes. */
  function Lead(n: nat): (b: nat) {
    if n == 2 then 0xc0 else if n == 3 then 0xe0 else if n == 4 then 0xf0 else 0
  }

  /** The three forms with more than one byte, laid out from the last byte to the first: each byte carries six bits,
      the first byte what is left. */
  function Encoding(val: scalar): (bs: seq<byte>)
    ensures |bs| == Length(val)
  {
    if val <= 0x7f then [val]
    else if val <= 0x7ff then [0xc0 + val / 64, 0x80 + val % 64]
    else if val <= 0xffff then [0xe0 + val / 4096, 0x80 + val / 64 % 64, 0x80 + val % 64]
    else [0xf0 + val / 262144, 0x80 + val / 4096 % 64, 0x80 + val / 64 % 64, 0x80 + val % 64]
  }

  /** The number of bytes a first byte announces; 0 if it is none. */
  function LengthOf(first: byte): (n: nat)
    ensures n <= 4
  {
    if first <= 0x7f then 1
    else if first / 0x20 == 6 then 2
    else if first / 0x10 == 14 then 3
    else if first / 8 == 30 then 4
    else 0
  }

  function StartOf(first: byte): (v: nat) {
    if first <= 0x7f then first
    else if first / 0x20 == 6 then first % 0x20
    else if first / 0x10 == 14 then first % 0x10
    else first % 8
  }

  /** start followed by the payload of continuation bytes. */
  function Continued(start: nat, bs: seq<byte>): (v: Option<nat>)
    decreases |bs|
  {
    if bs == [] then Some(start)
    else if bs[0] / 64 != 2 then None
    else Continued(start * 64 + bs[0] % 64, bs[1..])
  }

  /** What utf8_decode makes of the bytes it is given. */
  function Decoding(bs: seq<byte>): (d: Decoded)
    ensures d.Decoded? ==> 1 <= d.len <= |bs| && d.len <= 4
  {
    if bs == [] then Failed(NoData) else
    var n := LengthOf(bs[0]);
    if n == 0 then Failed(Invalid)
    else if |bs| < n then Failed(NoData)
    else
      var v := Continued(StartOf(bs[0]), bs[1..n]);
      if v.None? then Failed(Invalid) else Decoded(n, v.value)
  }

  lemma ShrAt(val: nat)
    ensures Shr(val, 0) == val && Shr(val, 1) == val / 64 && Shr(val, 2) == val / 4096 && Shr(val, 3) == val / 262144
  {
    Shr2(val);
  }

  lemma FirstIsByte(val: scalar)
    ensures Length(val) > 1 ==> Lead(Length(val)) + Shr(val, Length(val) - 1) < 0x100
  {
    ShrAt(val);
  }

  /** utf8_encode into the first bytes of buf, bufLen of which may be written. */
  method Encode(val: word, buf: array<byte>, bufLen: nat) returns (error: Option<Error>, nbytes: nat)
    requires bufLen <= buf.Length
    modifies buf
    ensures val > MAX_VALUE ==> error == Some(Invalid)
    ensures val <= MAX_VALUE && bufLen < Length(val) ==> error == Some(NoBufs)
    ensures val <= MAX_VALUE && bufLen >= Length(val) ==>
      error == None && nbytes == Length(val) && buf[..nbytes] == Encoding(val) && buf[nbytes..] == old(buf[nbytes..])
    ensures error.Some? ==> buf[..] == old(buf[..])
  {
    hide Encoding, Shr, Lead;
    error, nbytes := None, Length(val);
    if val > MAX_VALUE {
      return Some(Invalid), 0;
    }
    if bufLen < nbytes {
      return Some(NoBufs), 0;
    }
    if nbytes == 1 {
      buf[0] := val;
    } else {
      FirstIsByte(val);
      buf[0] := Lead(nbytes) + Shr(val, nbytes - 1);
      for i := 1 to nbytes
        invariant buf[0] == Lead(nbytes) + Shr(val, nbytes - 1)
        invariant forall k :: 1 <= k < i ==> buf[k] == 0x80 + Shr(val, nbytes - 1 - k) % 64
        invariant buf[nbytes..] == old(buf[nbytes..])
      {
        buf[i] := 0x80 + Shr(val, nbytes - 1 - i) % 64;
      }
    }
    LaidOut(val, buf[..nbytes]);
  }

  /** The bytes the loop leaves are the encoding. */
  lemma {:induction false} LaidOut(val: scalar, bs: seq<byte>)
    requires |bs| == Length(val) && bs[0] == if |bs| == 1 then val else Lead(|bs|) + Shr(val, |bs| - 1)
    requires forall k :: 1 <= k < |bs| ==> bs[k] == 0x80 + Shr(val, |bs| - 1 - k) % 64
    ensures Encoding(val) == bs
  {
    hide Shr;
    ShrAt(val);
  }

  /** utf8_decode of the first bufLen bytes of buf. */
  method Decode(buf: array<byte>, bufLen: nat) returns (d: Decoded)
    requires bufLen <= buf.Length
    ensures d == Decoding(buf[..bufLen])
  {
    if bufLen < 1 {
      return Failed(NoData);
    }
    var nbytes: nat, result: nat := LengthOf(buf[0]), StartOf(buf[0]);
    if nbytes == 0 {
      return Failed(Invalid);
    }
    if bufLen < nbytes {
      return Failed(NoData);
    }
    ghost var all := buf[..bufLen];
    ghost var tail := all[1..nbytes];
    for i := 1 to nbytes
      invariant Continued(result, tail[i - 1..]) == Continued(StartOf(buf[0]), tail)
    {
      assert tail[i - 1] == all[i] == buf[i] && tail[i - 1..][1..] == tail[i..];
      if buf[i] / 64 != 2 {
        return Failed(Invalid);
      }
      result := result * 64 + buf[i] % 64;
    }
    d := Decoded(nbytes, result);
  }

  lemma ContinuedUpTo3(start: nat, bs: seq<byte>)
    requires |bs| <= 3 && forall i :: 0 <= i < |bs| ==> bs[i] / 64 == 2
    ensures Continued(start, bs) == Some(
      if |bs| == 0 then start
      else if |bs| == 1 then start * 64 + bs[0] % 64
      else if |bs| == 2 then (start * 64 + bs[0] % 64) * 64 + bs[1] % 64
      else ((start * 64 + bs[0] % 64) * 64 + bs[1] % 64) * 64 + bs[2] % 64)
  {
    if |bs| > 0 {
      var s1 := start * 64 + bs[0] % 64;
      assert Continued(start, bs) == Continued(s1, bs[1..]);
      if |bs| > 1 {
        assert Continued(s1, bs[1..]) == Continued(s1 * 64 + bs[1] % 64, bs[1..][1..]);
        assert bs[1..][1..] == bs[2..];
      }
    }
  }

  /** The bytes of each form and the value they stand for, bit by bit, as in the table of section 3 of RFC 3629. */
  lemma Forms(w: nat, x: nat, y: nat, z: nat, rest: seq<byte>)
    requires x < 64 && y < 64 && z < 64
    ensures w < 0x80 ==> Decoding([w] + rest) == Decoded(1, w)
    ensures w < 0x20 ==> Decoding([0xc0 + w, 0x80 + z] + rest) == Decoded(2, 0x40 * w + z)
    ensures w < 0x10 ==> Decoding([0xe0 + w, 0x80 + y, 0x80 + z] + rest) == Decoded(3, 0x1000 * w + 0x40 * y + z)
    ensures w < 0x08 ==>
      var bs := [0xf0 + w, 0x80 + x, 0x80 + y, 0x80 + z];
      Decoding(bs + rest) == Decoded(4, 0x4_0000 * w + 0x1000 * x + 0x40 * y + z)
  {
    hide Continued;
    if w < 0x80 {
      ContinuedUpTo3(w, ([w] + rest)[1..1]);
    }
    if w < 0x20 {
      assert ([0xc0 + w, 0x80 + z] + rest)[1..2] == [0x80 + z];
      ContinuedUpTo3(w, [0x80 + z]);
    }
    if w < 0x10 {
      assert ([0xe0 + w, 0x80 + y, 0x80 + z] + rest)[1..3] == [0x80 + y, 0x80 + z];
      ContinuedUpTo3(w, [0x80 + y, 0x80 + z]);
    }
    if w < 0x08 {
      assert ([0xf0 + w, 0x80 + x, 0x80 + y, 0x80 + z] + rest)[1..4] == [0x80 + x, 0x80 + y, 0x80 + z];
      ContinuedUpTo3(w, [0x80 + x, 0x80 + y, 0x80 + z]);
    }
  }

  /** Everything else is refused: a first byte that starts no form, bytes that end too soon, and in place of a
      continuation byte anything else. */
  lemma Refusals(bs: seq<byte>)
    ensures bs == [] ==> Decoding(bs) == Failed(NoData)
    ensures bs != [] && (0x80 <= bs[0] < 0xc0 || bs[0] >= 0xf8) ==> Decoding(bs) == Failed(Invalid)
    ensures bs != [] && (bs[0] < 0x80 || 0xc0 <= bs[0] < 0xf8) ==>
      var n := if bs[0] < 0x80 then 1 else if bs[0] < 0xe0 then 2 else if bs[0] < 0xf0 then 3 else 4;
      && (|bs| < n ==> Decoding(bs) == Failed(NoData))
      && (|bs| >= n ==>
        if forall i :: 1 <= i < n ==> 0x80 <= bs[i] < 0xc0 then Decoding(bs).Decoded? && Decoding(bs).len == n
        else Decoding(bs) == Failed(Invalid))
  {
    if bs != [] && LengthOf(bs[0]) > 0 && |bs| >= LengthOf(bs[0]) {
      var tail := bs[1..LengthOf(bs[0])];
      ContinuedIff(StartOf(bs[0]), tail);
      forall i | 1 <= i < LengthOf(bs[0])
        ensures bs[i] == tail[i - 1]
      {
      }
    }
  }

  lemma {:induction false} ContinuedIff(start: nat, bs: seq<byte>)
    ensures Continued(start, bs).Some? <==> forall i :: 0 <= i < |bs| ==> bs[i] / 64 == 2
    decreases |bs|
  {
    if bs != [] && bs[0] / 64 == 2 {
      ContinuedIff(start * 64 + bs[0] % 64, bs[1..]);
      assert forall i :: 1 <= i < |bs| ==> bs[i] == bs[1..][i - 1];
    }
  }

  /** Decoding finds an encoded value again, whatever follows, and uses exactly its bytes. */
  lemma RoundTrip(val: scalar, rest: seq<byte>)
    ensures Decoding(Encoding(val) + rest) == Decoded(Length(val), val)
  {
    var bs := Encoding(val) + rest;
    var n := Length(val);
    assert bs[1..n] == Encoding(val)[1..];
    ContinuedUpTo3(StartOf(bs[0]), bs[1..n]);
    assert val / 64 / 64 == val / 4096 && val / 4096 / 64 == val / 262144;
  }

  /** A decoded value in range encodes to the bytes it came from exactly if they were its shortest form. */
  lemma ReEncode(bs: seq<byte>)
    requires Decoding(bs).Decoded? && Decoding(bs).value <= MAX_VALUE
    ensures var d := Decoding(bs);
      Encoding(d.value) == bs[..d.len] <==> d.len == Length(d.value)
  {
    var d := Decoding(bs);
    var tail := bs[1..d.len];
    ContinuedAll(StartOf(bs[0]), tail);
    ContinuedUpTo3(StartOf(bs[0]), tail);
    if d.len == Length(d.value) {
      SplitGroups(d.value, bs[..d.len]);
      assert bs[..d.len][1..] == tail;
    }
  }

  lemma Group(high: nat, low: nat)
    requires low < 64
    ensures (high * 64 + low) / 64 == high && (high * 64 + low) % 64 == low
  {
  }

  /** A shortest form is what its value encodes to. */
  lemma SplitGroups(val: nat, bs: seq<byte>)
    requires val <= MAX_VALUE && |bs| == Length(val) == LengthOf(bs[0])
    requires forall i :: 1 <= i < |bs| ==> bs[i] / 64 == 2
    requires Continued(StartOf(bs[0]), bs[1..]) == Some(val)
    ensures Encoding(val) == bs
  {
    hide Encoding, Continued;
    ContinuedUpTo3(StartOf(bs[0]), bs[1..]);
    if |bs| == 1 {
      OneByte(val, bs);
    } else if |bs| == 2 {
      TwoBytes(val, bs[0], bs[1]);
      assert bs == [bs[0], bs[1]];
    } else if |bs| == 3 {
      ThreeBytes(val, bs[0], bs[1], bs[2]);
      assert bs == [bs[0], bs[1], bs[2]];
    } else {
      FourBytes(val, bs[0], bs[1], bs[2], bs[3]);
      assert bs == [bs[0], bs[1], bs[2], bs[3]];
    }
  }

  lemma OneByte(val: nat, bs: seq<byte>)
    requires |bs| == 1 == Length(val) == LengthOf(bs[0]) && val == StartOf(bs[0])
    ensures Encoding(val) == bs
  {
  }

  lemma TwoBytes(val: nat, a: byte, b: byte)
    requires Length(val) == LengthOf(a) == 2 && b / 64 == 2 && val == StartOf(a) * 64 + b % 64
    ensures Encoding(val) == [a, b]
  {
    Group(StartOf(a), b % 64);
  }

  lemma ThreeBytes(val: nat, a: byte, b: byte, c: byte)
    requires Length(val) == LengthOf(a) == 3 && b / 64 == c / 64 == 2
    requires val == (StartOf(a) * 64 + b % 64) * 64 + c % 64
    ensures Encoding(val) == [a, b, c]
  {
    Group(StartOf(a), b % 64);
    Group(StartOf(a) * 64 + b % 64, c % 64);
    Shr2(val);
  }

  lemma FourBytes(val: nat, a: byte, b: byte, c: byte, d: byte)
    requires val <= MAX_VALUE && Length(val) == LengthOf(a) == 4 && b / 64 == c / 64 == d / 64 == 2
    requires val == ((StartOf(a) * 64 + b % 64) * 64 + c % 64) * 64 + d % 64
    ensures Encoding(val) == [a, b, c, d]
  {
    Group(StartOf(a), b % 64);
    Group(StartOf(a) * 64 + b % 64, c % 64);
    Group((StartOf(a) * 64 + b % 64) * 64 + c % 64, d % 64);
    Shr2(val);
  }

  lemma Shr2(val: nat)
    ensures val / 64 / 64 == val / 4096 && val / 4096 / 64 == val / 262144
  {
  }

  lemma {:induction false} ContinuedAll(start: nat, bs: seq<byte>)
    requires Continued(start, bs).Some?
    ensures forall i :: 0 <= i < |bs| ==> bs[i] / 64 == 2
    decreases |bs|
  {
    if bs != [] {
      ContinuedAll(start * 64 + bs[0] % 64, bs[1..]);
      forall i | 0 <= i < |bs|
        ensures bs[i] / 64 == 2
      {
        if i > 0 {
          assert bs[i] == bs[1..][i - 1];
        }
      }
    }
  }

  // What is accepted beyond section 3 of RFC 3629.

  /** In range, and not set aside for the surrogates of UTF-16. */
  predicate IsCharacter(val: nat) {
    val <= MAX_VALUE && !(0xd800 <= val <= 0xdfff)
  }

  /** bs is the encoding of a character, so its shortest form. */
  ghost predicate WellFormed(bs: seq<byte>) {
    exists val: scalar :: IsCharacter(val) && bs == Encoding(val)
  }

  /** The first two bytes of accepted ones show whether they are well formed; of a single byte, second is anything. */
  predicate Admitted(first: byte, second: byte) {
    && first != 0xc0 && first != 0xc1 && first < 0xf5
    && (first == 0xe0 ==> second >= 0xa0)
    && (first == 0xed ==> second < 0xa0)
    && (first == 0xf0 ==> second >= 0x90)
    && (first == 0xf4 ==> second < 0x90)
  }

  /** Which of the accepted byte strings are well formed. */
  lemma AcceptedWellFormed(bs: seq<byte>)
    requires Decoding(bs).Decoded?
    ensures var d := Decoding(bs);
      && (WellFormed(bs[..d.len]) <==> IsCharacter(d.value) && d.len == Length(d.value))
      && (WellFormed(bs[..d.len]) <==> Admitted(bs[0], if d.len > 1 then bs[1] else 0))
  {
    hide Encoding;
    var d := Decoding(bs);
    if WellFormed(bs[..d.len]) {
      var val: scalar :| IsCharacter(val) && bs[..d.len] == Encoding(val);
      assert bs == Encoding(val) + bs[d.len..];
      RoundTrip(val, bs[d.len..]);
    }
    if IsCharacter(d.value) && d.len == Length(d.value) {
      ReEncode(bs);
    }
    AdmittedValue(bs);
  }

  lemma AdmittedValue(bs: seq<byte>)
    requires Decoding(bs).Decoded?
    ensures var d := Decoding(bs);
      IsCharacter(d.value) && d.len == Length(d.value) <==> Admitted(bs[0], if d.len > 1 then bs[1] else 0)
  {
    var d := Decoding(bs);
    var tail := bs[1..d.len];
    ContinuedAll(StartOf(bs[0]), tail);
    ContinuedUpTo3(StartOf(bs[0]), tail);
    forall i | 1 <= i < d.len
      ensures bs[i] / 64 == 2
    {
      assert tail[i - 1] == bs[i];
    }
    if d.len == 2 {
      assert d.value == StartOf(bs[0]) * 64 + bs[1] % 64;
    } else if d.len == 3 {
      assert d.value == (StartOf(bs[0]) * 64 + bs[1] % 64) * 64 + bs[2] % 64;
    } else if d.len == 4 {
      assert d.value == ((StartOf(bs[0]) * 64 + bs[1] % 64) * 64 + bs[2] % 64) * 64 + bs[3] % 64;
    }
  }

  /** Every well-formed encoding is accepted, whatever follows. */
  lemma WellFormedAccepted(bs: seq<byte>, rest: seq<byte>)
    requires WellFormed(bs)
    ensures Decoding(bs + rest).Decoded? && Decoding(bs + rest).len == |bs|
  {
    var val: scalar :| IsCharacter(val) && bs == Encoding(val);
    RoundTrip(val, rest);
  }

  /** An overlong form of 0, a surrogate, and a value out of range: accepted, though none is well formed. */
  lemma AcceptedThough()
    ensures Decoding([0xc0, 0x80]) == Decoded(2, 0) && !WellFormed([0xc0, 0x80])
    ensures Decoding([0xed, 0xa0, 0x80]) == Decoded(3, 0xd800) && !WellFormed([0xed, 0xa0, 0x80])
    ensures Decoding([0xf7, 0xbf, 0xbf, 0xbf]) == Decoded(4, 0x1fffff) && !WellFormed([0xf7, 0xbf, 0xbf, 0xbf])
  {
    hide Encoding;
    var overlong, surrogate, beyond: seq<byte> := [0xc0, 0x80], [0xed, 0xa0, 0x80], [0xf7, 0xbf, 0xbf, 0xbf];
    assert overlong[1..2] == [0x80] && surrogate[1..3] == [0xa0, 0x80] && beyond[1..4] == [0xbf, 0xbf, 0xbf];
    ContinuedUpTo3(StartOf(0xc0), [0x80]);
    ContinuedUpTo3(StartOf(0xed), [0xa0, 0x80]);
    ContinuedUpTo3(StartOf(0xf7), [0xbf, 0xbf, 0xbf]);
    AcceptedWellFormed(overlong);
    AcceptedWellFormed(surrogate);
    AcceptedWellFormed(beyond);
    assert overlong[..2] == overlong && surrogate[..3] == surrogate && beyond[..4] == beyond;
  }

  function EncodingAll(vals: seq<scalar>): (bs: seq<byte>) {
    if vals == [] then [] else Encoding(vals[0]) + EncodingAll(vals[1..])
  }

  /** Decoding n values one after the other: the values and what is left. */
  function DecodingAll(bs: seq<byte>, n: nat): (r: Option<(seq<nat>, seq<byte>)>)
    decreases n
  {
    if n == 0 then Some(([], bs)) else
    var d := Decoding(bs);
    if d.Failed? then None else
    var rest := DecodingAll(bs[d.len..], n - 1);
    if rest.None? then None else Some(([d.value] + rest.value.0, rest.value.1))
  }

  /** A stream of encoded values decodes to those values and to nothing less or more. */
  lemma {:induction false} StreamRoundTrip(vals: seq<scalar>, rest: seq<byte>)
    ensures DecodingAll(EncodingAll(vals) + rest, |vals|) == Some((vals, rest))
    decreases |vals|
  {
    hide Encoding, Decoding;
    if vals == [] {
      assert [] + rest == rest;
    } else {
      var more := EncodingAll(vals[1..]) + rest;
      var bs := EncodingAll(vals) + rest;
      assert bs == Encoding(vals[0]) + more;
      RoundTrip(vals[0], more);
      assert bs[Length(vals[0])..] == more;
      StreamRoundTrip(vals[1..], rest);
      assert [vals[0]] + vals[1..] == vals;
    }
  }

  // On a ring buffer, through claims of up to four contiguous bytes.

  class Stream {
    var ring: Ring

    ghost predicate Valid()
      reads this
    {
      ring.Valid()
    }

    /** utf8_rbuf_put: a value that cannot be encoded, or does not fit in one stretch, leaves the buffer as it is. */
    method Put(val: word) returns (error: Option<Error>, nbytes: nat)
      requires Valid()
      modifies this
      ensures Valid()
      ensures val > MAX_VALUE ==> error == Some(Invalid)
      ensures val <= MAX_VALUE ==> error == if Min(4, old(ring).PutRun()) < Length(val) then Some(NoBufs) else None
      ensures error.Some? ==> ring == old(ring)
      ensures error == None ==>
        nbytes == Length(val) && ring == old(ring).(items := old(ring).items + Encoding(val))
    {
      var claimed := Min(4, ring.PutRun());
      var stretch := new byte[claimed](_ => 0);
      error, nbytes := Encode(val, stretch, claimed);
      if error == None {
        ring := ring.(items := ring.items + stretch[..nbytes]);
      }
    }

    /** utf8_rbuf_get: bytes that cannot be decoded stay where they are. */
    method Get() returns (d: Decoded)
      requires Valid()
      modifies this
      ensures Valid()
      ensures d == Decoding(old(ring).items[..Min(4, old(ring).GetRun())])
      ensures d.Failed? ==> ring == old(ring)
      ensures d.Decoded? ==>
        ring == old(ring).(got := old(ring).got + d.len, items := old(ring).items[d.len..])
    {
      var claimed := Min(4, ring.GetRun());
      var items := ring.items;
      var stretch := new byte[claimed](i requires 0 <= i < |items| => items[i]);
      assert stretch[..claimed] == items[..claimed];
      d := Decode(stretch, claimed);
      if d.Decoded? {
        ring := ring.(got := ring.got + d.len, items := ring.items[d.len..]);
      }
    }
  }

  /** What a put adds, a get returns, whatever follows, if the bytes do not straddle the end of the array; if they do,
      the get fails although all of them are there. */
  lemma PutThenGet(ring: Ring, val: scalar, rest: seq<byte>)
    requires ring.Valid() && ring.items == Encoding(val) + rest
    ensures Decoding(ring.items[..Min(4, ring.GetRun())]).Decoded? <==> Length(val) <= ring.cap - ring.got % ring.cap
    ensures Length(val) <= ring.cap - ring.got % ring.cap ==>
      Decoding(ring.items[..Min(4, ring.GetRun())]) == Decoded(Length(val), val)
  {
    hide Encoding;
    var run, n := Min(4, ring.GetRun()), Length(val);
    if n <= ring.cap - ring.got % ring.cap {
      assert ring.items[..run] == Encoding(val) + rest[..run - n];
      RoundTrip(val, rest[..run - n]);
    } else {
      FirstByte(val);
      assert ring.items[..run][0] == Encoding(val)[0];
    }
  }

  lemma FirstByte(val: scalar)
    ensures LengthOf(Encoding(val)[0]) == Length(val)
  {
  }
}
