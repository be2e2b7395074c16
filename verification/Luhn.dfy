/** The Luhn mod 36 check character of a serial number (luhn_mod36_check_gen in
    scripts/mfg/gen_manufacturing_data_hex.py). */
module Luhn {
  import opened RingBuffer

  type code = n: nat | n < 36

  predicate IsSymbol(c: char) {
    '0' <= c <= '9' || 'A' <= c <= 'Z'
  }

  function ToCode(c: char): (n: code)
    requires IsSymbol(c)
  {
    if c <= '9' then c as int - '0' as int else c as int - 'A' as int + 10
  }

  function ToChar(n: code): (c: char)
    ensures IsSymbol(c) && ToCode(c) == n
  {
    if n <= 9 then ('0' as int + n) as char else ('A' as int + n - 10) as char
  }

  /** The alphabet in the order of its codes. */
  lemma AlphabetOrder(n: code)
    ensures ToChar(n) == "0123456789ABCDEFGHIJKLMNOPQRSTUVWXYZ"[n]
    ensures ToCode("0123456789ABCDEFGHIJKLMNOPQRSTUVWXYZ"[n]) == n
  {
  }

  predicate AllSymbols(s: string) {
    forall i :: 0 <= i < |s| ==> IsSymbol(s[i])
  }

  function Codes(s: string): (cs: seq<code>)
    requires AllSymbols(s)
    ensures |cs| == |s|
  {
    seq(|s|, i requires 0 <= i < |s| => ToCode(s[i]))
  }

  /** The base-36 digit sum of factor * c. */
  function Addend(factor: nat, c: code): (n: nat)
    requires factor == 1 || factor == 2
    ensures n < 36
  {
    factor * c / 36 + factor * c % 36
  }

  /** The weighted sum from the right, the last code weighted with factor, the others with 1 and 2 in turn. */
  function Sum(cs: seq<code>, factor: nat): (n: nat)
    requires factor == 1 || factor == 2
  {
    if cs == [] then 0 else Addend(factor, cs[|cs| - 1]) + Sum(cs[..|cs| - 1], 3 - factor)
  }

  function Check(cs: seq<code>): (c: code) {
    (36 - Sum(cs, 2) % 36) % 36
  }

  /** The check character of a string. */
  function CheckChar(s: string): (c: char)
    requires AllSymbols(s)
    ensures IsSymbol(c)
  {
    ToChar(Check(Codes(s)))
  }

  /** luhn_mod36_check_gen; None where a character outside the alphabet makes the script fail. */
  method CheckGen(s: string) returns (r: Option<char>)
    ensures r.Some? <==> AllSymbols(s)
    ensures r.Some? ==> r.value == CheckChar(s)
  {
    var factor, sum := 2, 0;
    var i := |s|;
    if AllSymbols(s) {
      assert Codes(s)[..|s|] == Codes(s);
    }
    while i > 0
      invariant 0 <= i <= |s| && (factor == 1 || factor == 2)
      invariant forall k :: i <= k < |s| ==> IsSymbol(s[k])
      invariant AllSymbols(s) ==> sum + Sum(Codes(s)[..i], factor) == Sum(Codes(s), 2)
    {
      i := i - 1;
      if !IsSymbol(s[i]) {
        return None;
      }
      if AllSymbols(s) {
        assert Codes(s)[..i + 1][..i] == Codes(s)[..i];
      }
      sum := sum + Addend(factor, ToCode(s[i]));
      factor := if factor == 2 then 1 else 2;
    }
    r := Some(ToChar((36 - sum % 36) % 36));
  }

  /** Appending the check code brings the weighted sum, which now starts with weight 1, to 0 mod 36. */
  lemma CheckCloses(cs: seq<code>)
    ensures Sum(cs + [Check(cs)], 1) % 36 == 0
  {
    hide Sum, Addend;
    var c := Check(cs);
    SumSplit(cs, [c], 1);
    SumOne(c, 1);
    Doubled(c);
    Complement(Sum(cs, 2));
  }

  /** From the right, every other code counts twice, the last one first, its two digits in base 36 added; and check code
      and sum add up to a multiple of 36. */
  lemma Weights(cs: seq<code>, x: code, y: code)
    ensures Sum([], 2) == 0 && Sum([y], 2) == 2 * y / 36 + 2 * y % 36
    ensures Sum(cs + [x, y], 2) == Sum(cs, 2) + x + (2 * y / 36 + 2 * y % 36)
    ensures (Check(cs) + Sum(cs, 2)) % 36 == 0
  {
    hide Sum;
    SumNone();
    SumOne(y, 2);
    SumTwo(x, y, 2);
    SumSplit(cs, [x, y], 2);
    Doubled(x);
    Complement(Sum(cs, 2));
  }

  lemma SumNone()
    ensures Sum([], 2) == 0
  {
  }

  lemma Below72(p: nat)
    requires p < 72
    ensures p / 36 == (if p < 36 then 0 else 1) && p % 36 == if p < 36 then p else p - 36
  {
  }

  lemma Complement(n: nat)
    ensures (36 - n % 36) % 36 == if n % 36 == 0 then 0 else 36 - n % 36
    ensures ((36 - n % 36) % 36 + n) % 36 == 0
  {
    var r, q := n % 36, n / 36;
    Below72(36 - r);
    assert n == 36 * q + r;
  }

  function Flip(factor: nat, n: nat): (f: nat)
    requires factor == 1 || factor == 2
    ensures f == 1 || f == 2
  {
    if n % 2 == 0 then factor else 3 - factor
  }

  lemma {:induction false} SumSplit(a: seq<code>, b: seq<code>, factor: nat)
    requires factor == 1 || factor == 2
    ensures Sum(a + b, factor) == Sum(b, factor) + Sum(a, Flip(factor, |b|))
    decreases |b|
  {
    hide Addend;
    if b == [] {
      assert a + b == a;
    } else {
      var d := b[..|b| - 1];
      assert (a + b)[..|a + b| - 1] == a + d && (a + b)[|a + b| - 1] == b[|b| - 1];
      SumSplit(a, d, 3 - factor);
    }
  }

  /** Either weight permutes the codes modulo 36. */
  lemma AddendInjective(factor: nat, x: code, y: code)
    requires factor == 1 || factor == 2
    ensures Addend(factor, x) % 36 == Addend(factor, y) % 36 <==> x == y
  {
    hide Addend;
    Doubled(x);
    Doubled(y);
    Below72(Addend(factor, x));
    Below72(Addend(factor, y));
  }

  /** Weights 1 and 2 tell a pair from its swap, except for 0 and 35. */
  lemma AddendSwap(factor: nat, x: code, y: code)
    requires factor == 1 || factor == 2
    ensures (Addend(factor, x) + Addend(3 - factor, y)) % 36 == (Addend(factor, y) + Addend(3 - factor, x)) % 36
      <==> x == y || {x, y} == {0, 35}
  {
    hide Addend;
    Doubled(x);
    Doubled(y);
    Below72(Addend(factor, x) + Addend(3 - factor, y));
    Below72(Addend(factor, y) + Addend(3 - factor, x));
  }

  lemma Doubled(x: code)
    ensures Addend(1, x) == x && Addend(2, x) == if x < 18 then 2 * x else 2 * x - 35
  {
    Below72(1 * x);
    Below72(2 * x);
  }

  lemma CheckSame(a: seq<code>, b: seq<code>)
    ensures Check(a) == Check(b) <==> Sum(a, 2) % 36 == Sum(b, 2) % 36
  {
    hide Sum;
    Complement(Sum(a, 2));
    Complement(Sum(b, 2));
  }

  lemma SameResidue(x: nat, y: nat, z: nat)
    ensures (x + z) % 36 == (y + z) % 36 <==> x % 36 == y % 36
  {
  }

  lemma Around(a: seq<code>, mid: seq<code>, b: seq<code>)
    ensures Sum(a + mid + b, 2) == Sum(b, 2) + Sum(mid, Flip(2, |b|)) + Sum(a, Flip(Flip(2, |b|), |mid|))
  {
    SumSplit(a + mid, b, 2);
    SumSplit(a, mid, Flip(2, |b|));
  }

  /** Replacing one character changes the check character. */
  lemma SubstitutionDetected(a: seq<code>, x: code, y: code, b: seq<code>)
    ensures Check(a + [x] + b) == Check(a + [y] + b) <==> x == y
  {
    hide Sum, Addend, Flip, Check;
    var f := Flip(2, |b|);
    Around(a, [x], b);
    Around(a, [y], b);
    SumOne(x, f);
    SumOne(y, f);
    CheckSame(a + [x] + b, a + [y] + b);
    SameResidue(Addend(f, x), Addend(f, y), Sum(b, 2) + Sum(a, Flip(f, 1)));
    AddendInjective(f, x, y);
  }

  lemma SumOne(x: code, f: nat)
    requires f == 1 || f == 2
    ensures Sum([x], f) == Addend(f, x)
  {
    assert Sum([x][..0], 3 - f) == 0;
  }

  lemma SumTwo(x: code, y: code, f: nat)
    requires f == 1 || f == 2
    ensures Sum([x, y], f) == Addend(f, y) + Addend(3 - f, x)
  {
    assert [x, y][..1] == [x];
    SumOne(x, 3 - f);
  }

  /** Exchanging two neighbours changes it too, unless they are equal or are 0 and Z. */
  lemma TranspositionDetected(a: seq<code>, x: code, y: code, b: seq<code>)
    ensures Check(a + [x, y] + b) == Check(a + [y, x] + b) <==> x == y || {x, y} == {0, 35}
  {
    hide Sum, Addend, Flip, Check;
    var f := Flip(2, |b|);
    Around(a, [x, y], b);
    Around(a, [y, x], b);
    SumTwo(x, y, f);
    SumTwo(y, x, f);
    CheckSame(a + [x, y] + b, a + [y, x] + b);
    SameResidue(Addend(f, y) + Addend(3 - f, x), Addend(f, x) + Addend(3 - f, y), Sum(b, 2) + Sum(a, Flip(f, 2)));
    AddendSwap(f, x, y);
  }

  /** The sequence number can be padded by pairs of zeros without changing the check character. */
  lemma PaddingInvisible(a: seq<code>, b: seq<code>)
    ensures Check(a + [0, 0] + b) == Check(a + b)
  {
    hide Sum, Addend, Check;
    var f := Flip(2, |b|);
    Around(a, [0, 0], b);
    SumSplit(a, b, 2);
    SumTwo(0, 0, f);
    Doubled(0);
    CheckSame(a + [0, 0] + b, a + b);
  }

  // The same laws on strings.

  lemma CodesJoin(a: string, mid: string, b: string)
    requires AllSymbols(a) && AllSymbols(mid) && AllSymbols(b)
    ensures AllSymbols(a + mid + b) && Codes(a + mid + b) == Codes(a) + Codes(mid) + Codes(b)
  {
    var all := a + mid + b;
    forall i | 0 <= i < |all|
      ensures IsSymbol(all[i])
    {
      assert all[i] == if i < |a| then a[i] else if i < |a| + |mid| then mid[i - |a|] else b[i - |a| - |mid|];
    }
  }

  lemma CodeInjective(x: char, y: char)
    requires IsSymbol(x) && IsSymbol(y)
    ensures ToCode(x) == ToCode(y) <==> x == y
  {
  }

  lemma SameCheck(a: string, b: string)
    requires AllSymbols(a) && AllSymbols(b)
    ensures CheckChar(a) == CheckChar(b) <==> Check(Codes(a)) == Check(Codes(b))
  {
    hide Check, ToChar;
  }

  /** A single wrong character shows. */
  lemma WrongCharacterShows(a: string, x: char, y: char, b: string)
    requires AllSymbols(a) && IsSymbol(x) && IsSymbol(y) && AllSymbols(b)
    ensures AllSymbols(a + [x] + b) && AllSymbols(a + [y] + b)
    ensures CheckChar(a + [x] + b) == CheckChar(a + [y] + b) <==> x == y
  {
    hide Check, ToChar, CheckChar, ToCode;
    CodesJoin(a, [x], b);
    CodesJoin(a, [y], b);
    assert Codes([x]) == [ToCode(x)] && Codes([y]) == [ToCode(y)];
    SameCheck(a + [x] + b, a + [y] + b);
    SubstitutionDetected(Codes(a), ToCode(x), ToCode(y), Codes(b));
    CodeInjective(x, y);
  }

  /** So do two neighbours that have changed places, except 0 and Z. */
  lemma SwapShows(a: string, x: char, y: char, b: string)
    requires AllSymbols(a) && IsSymbol(x) && IsSymbol(y) && AllSymbols(b)
    ensures AllSymbols(a + [x, y] + b) && AllSymbols(a + [y, x] + b)
    ensures CheckChar(a + [x, y] + b) == CheckChar(a + [y, x] + b)
      <==> x == y || (x == '0' && y == 'Z') || (x == 'Z' && y == '0')
  {
    hide Check, ToChar, CheckChar;
    CodesJoin(a, [x, y], b);
    CodesJoin(a, [y, x], b);
    assert Codes([x, y]) == [ToCode(x), ToCode(y)] && Codes([y, x]) == [ToCode(y), ToCode(x)];
    SameCheck(a + [x, y] + b, a + [y, x] + b);
    TranspositionDetected(Codes(a), ToCode(x), ToCode(y), Codes(b));
    CodeInjective(x, y);
    PairOfEnds(x, y);
  }

  lemma PairOfEnds(x: char, y: char)
    requires IsSymbol(x) && IsSymbol(y)
    ensures {ToCode(x), ToCode(y)} == {0, 35} <==> (x == '0' && y == 'Z') || (x == 'Z' && y == '0')
  {
    var p, q := ToCode(x), ToCode(y);
    assert {p, q} == {0, 35} <==> (p == 0 && q == 35) || (p == 35 && q == 0) by {
      if {p, q} == {0, 35} {
        assert p in {0, 35} && q in {0, 35} && 0 in {p, q} && 35 in {p, q};
      }
    }
    assert ToCode('0') == 0 && ToCode('Z') == 35;
    CodeInjective(x, '0');
    CodeInjective(x, 'Z');
    CodeInjective(y, '0');
    CodeInjective(y, 'Z');
  }

  /** Two zeros more or less, anywhere, do not. */
  lemma ZerosDoNotShow(a: string, b: string)
    requires AllSymbols(a) && AllSymbols(b)
    ensures AllSymbols(a + "00" + b) && AllSymbols(a + b) && CheckChar(a + "00" + b) == CheckChar(a + b)
  {
    hide Check, ToChar, CheckChar;
    CodesJoin(a, "00", b);
    CodesJoin(a, "", b);
    assert Codes("00") == [0, 0] && Codes("") == [] && a + "" + b == a + b;
    assert Codes(a) + [] + Codes(b) == Codes(a) + Codes(b);
    SameCheck(a + "00" + b, a + b);
    PaddingInvisible(Codes(a), Codes(b));
  }
}
