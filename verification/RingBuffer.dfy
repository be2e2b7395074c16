/** Zephyr's ring_buf as the firmware relies on it: a bounded FIFO over a circular array. got counts the bytes taken
    out since the last reset, so the array position of the oldest byte is got % cap. Copying operations may wrap;
    a claim hands out one contiguous stretch and may come back short. */
module RingBuffer {
  import opened Bits

  datatype Option<+T> = None | Some(value: T)

  datatype Ring = Ring(cap: nat, got: nat, items: seq<byte>)
  {
    predicate Valid() {
      cap > 0 && |items| <= cap
    }

    function Space(): (n: nat)
      requires Valid()
    {
      cap - |items|
    }

    /** The longest stretch ring_buf_put_claim can hand out. */
    function PutRun(): (n: nat)
      requires Valid()
    {
      Min(Space(), cap - (got + |items|) % cap)
    }

    /** The longest stretch ring_buf_get_claim can hand out. */
    function GetRun(): (n: nat)
      requires Valid()
    {
      Min(|items|, cap - got % cap)
    }

    /** ring_buf_put, as used here: all or failure. */
    function Put(bs: seq<byte>): (r: Option<Ring>)
      requires Valid()
      ensures r.Some? ==> r.value.Valid() && r.value.cap == cap
    {
      if |bs| <= Space() then Some(this.(items := items + bs)) else None
    }

    /** A put claim of |bs| bytes, filled and finished. */
    function PutClaimed(bs: seq<byte>): (r: Option<Ring>)
      requires Valid()
      ensures r.Some? ==> r.value.Valid() && r.value.cap == cap
    {
      if |bs| <= PutRun() then Some(this.(items := items + bs)) else None
    }

    /** ring_buf_get, as used here: all or failure. */
    function Get(n: nat): (r: Option<(seq<byte>, Ring)>)
      requires Valid()
      ensures r.Some? ==> r.value.1.Valid() && r.value.1.cap == cap && |r.value.0| == n
    {
      if n <= |items| then Some((items[..n], this.(got := got + n, items := items[n..]))) else None
    }

    /** A get claim of n bytes, read and finished. */
    function GetClaimed(n: nat): (r: Option<(seq<byte>, Ring)>)
      requires Valid()
      ensures r.Some? ==> r.value.1.Valid() && r.value.1.cap == cap && |r.value.0| == n
    {
      if n <= GetRun() then Get(n) else None
    }

    function Reset(): (r: Ring) {
      this.(got := 0, items := [])
    }

    /** n more bytes can be put before the array position comes round to its start. */
    predicate Room(n: nat) {
      got + |items| + n <= cap
    }
  }

  function Min(a: nat, b: nat): (m: nat) {
    if a <= b then a else b
  }

  /** As long as a buffer has not come round, claims are never short. */
  lemma PutInRoom(r: Ring, bs: seq<byte>, n: nat)
    requires r.Valid() && bs != [] && |bs| <= n && r.Room(n)
    ensures r.PutClaimed(bs) == Some(r.(items := r.items + bs))
    ensures r.Put(bs) == Some(r.(items := r.items + bs))
    ensures r.(items := r.items + bs).Room(n - |bs|)
  {
  }

  lemma GetFront(r: Ring, a: seq<byte>, b: seq<byte>)
    requires r.Valid() && r.items == a + b
    ensures r.Get(|a|) == Some((a, r.(got := r.got + |a|, items := b)))
  {
    assert r.items[..|a|] == a && r.items[|a|..] == b;
  }

  /** Bytes that end before the array does are claimed in one stretch. */
  lemma GetStraight(r: Ring, a: seq<byte>, b: seq<byte>)
    requires r.Valid() && r.items == a + b && a != [] && r.got + |a| <= r.cap
    ensures r.GetClaimed(|a|) == Some((a, r.(got := r.got + |a|, items := b)))
  {
    hide Ring.Get;
    SmallMod(r.got, r.cap);
    GetFront(r, a, b);
  }
}
