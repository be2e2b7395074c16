/** ring_buf at the level of its array, for the places where a driver keeps a pointer into it while others go on
    using it. start is the array index of the oldest of len bytes. */
module CircularBuffer {
  import opened Bits

  datatype Circ = Circ(buf: seq<byte>, start: nat, len: nat)
  {
    predicate Valid() {
      start < |buf| && len <= |buf|
    }

    /** The array index of byte i, counted from the oldest. */
    function At(i: nat): (k: nat)
      requires Valid() && i <= |buf|
      ensures k < |buf|
    {
      if start + i < |buf| then start + i else start + i - |buf|
    }

    ghost function Items(): (s: seq<byte>)
      requires Valid()
      ensures |s| == len
    {
      seq(len, i requires 0 <= i < len => buf[At(i)])
    }

    /** The longest contiguous stretch a put claim can get behind so many bytes claimed before and not finished. */
    function ClaimRun(claimed: nat): (n: nat)
      requires Valid() && len + claimed <= |buf|
      ensures n <= |buf| - len - claimed && At(len + claimed) + n <= |buf|
      ensures n == 0 <==> len + claimed == |buf|
    {
      var space, trail := |buf| - len - claimed, |buf| - At(len + claimed);
      if space <= trail then space else trail
    }

    /** The longest contiguous stretch a put claim can get when nothing is claimed. */
    function PutRun(): (n: nat)
      requires Valid()
      ensures n <= |buf| - len && At(len) + n <= |buf|
      ensures n == 0 <==> len == |buf|
    {
      ClaimRun(0)
    }

    /** The longest contiguous stretch a get claim can get. */
    function GetRun(): (n: nat)
      requires Valid()
      ensures n <= len && start + n <= |buf|
      ensures n == 0 <==> len == 0
    {
      if len <= |buf| - start then len else |buf| - start
    }

    /** A put claim gets as much as is free and lies in one piece, a get claim as much as is there and does. */
    lemma Longest(claimed: nat, n: nat)
      requires Valid() && len + claimed <= |buf|
      ensures n <= ClaimRun(claimed) <==>
        len + claimed + n <= |buf| && (start + len + claimed < |buf| ==> start + len + claimed + n <= |buf|)
      ensures n <= PutRun() <==> len + n <= |buf| && (start + len < |buf| ==> start + len + n <= |buf|)
      ensures n <= GetRun() <==> n <= len && start + n <= |buf|
    {
    }

    /** Bytes written through a put claim, and finished. */
    function Fill(bs: seq<byte>): (c: Circ)
      requires Valid() && |bs| <= PutRun()
      ensures c.Valid()
    {
      var p := At(len);
      Circ(buf[..p] + bs + buf[p + |bs|..], start, len + |bs|)
    }

    /** Bytes that someone else has written from index p on, finished: the ring grows at its end, wherever p is. */
    function FillAt(p: nat, bs: seq<byte>): (c: Circ)
      requires Valid() && p + |bs| <= |buf| && |bs| <= |buf| - len
      ensures c.Valid()
      ensures p == At(len) && |bs| <= PutRun() ==> c == Fill(bs)
    {
      Circ(buf[..p] + bs + buf[p + |bs|..], start, len + |bs|)
    }

    /** The first n bytes behind a get claim, as they are in the array. */
    function Peek(n: nat): (bs: seq<byte>)
      requires Valid() && n <= GetRun()
      ensures |bs| == n
    {
      buf[start..start + n]
    }

    /** A get claim finished with n bytes. */
    function Drop(n: nat): (c: Circ)
      requires Valid() && n <= GetRun()
      ensures c.Valid()
    {
      Circ(buf, At(n), len - n)
    }

    /** Bytes put come after all others, and disturb none of them. */
    lemma FillItems(bs: seq<byte>)
      requires Valid() && |bs| <= PutRun()
      ensures Fill(bs).Items() == Items() + bs
      ensures Fill(bs).start == start && Fill(bs).GetRun() >= GetRun()
      ensures forall n :: 0 <= n <= GetRun() ==> Fill(bs).Peek(n) == Peek(n)
    {
      var c := Fill(bs);
      var p := At(len);
      forall i | 0 <= i < c.len
        ensures c.Items()[i] == (Items() + bs)[i]
      {
        if i < len {
          assert At(i) < p || p + |bs| <= At(i);
        } else {
          assert c.At(i) == p + (i - len);
        }
      }
      forall j | start <= j < start + GetRun()
        ensures c.buf[j] == buf[j]
      {
        assert At(j - start) == j && (j < p || p + |bs| <= j);
      }
    }

    /** A get claim shows the oldest bytes. */
    lemma PeekItems(n: nat)
      requires Valid() && n <= GetRun()
      ensures Peek(n) == Items()[..n]
    {
      assert forall k :: 0 <= k < n ==> start + k == At(k);
    }

    /** What is behind the dropped bytes stays where it is. */
    lemma DropAt(n: nat, i: nat)
      requires Valid() && n <= GetRun() && n <= i <= |buf|
      ensures Drop(n).At(i - n) == At(i)
    {
    }

    /** Dropping takes the oldest bytes, and leaves a put claim that is outstanding its stretch. */
    lemma DropItems(n: nat)
      requires Valid() && n <= GetRun()
      ensures Drop(n).Items() == Items()[n..]
      ensures Drop(n).PutRun() >= PutRun() && Drop(n).At(Drop(n).len) == At(len)
    {
      var c := Drop(n);
      forall i | 0 <= i < c.len
        ensures c.Items()[i] == Items()[n..][i]
      {
        assert c.At(i) == At(n + i);
      }
    }
  }

  function Reset(c: Circ): (r: Circ) {
    c.(start := 0, len := 0)
  }
}
