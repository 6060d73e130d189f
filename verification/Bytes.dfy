/** Bytes, integer division and concatenation: vocabulary of the other modules. */
module Bytes {

  type byte = x: int | 0 <= x < 256

  /** A 16-bit word from its high and low byte. */
  function Word(hi: byte, lo: byte): (w: nat) {
    256 * (hi as int) + lo as int
  }

  lemma {:induction false} MulMod(q: nat, a: nat)
    requires a > 0
    ensures (q * a) % a == 0
  {
    if q > 0 {
      MulMod(q - 1, a);
      assert q * a == (q - 1) * a + a;
      ModAdd((q - 1) * a, a);
    }
  }

  lemma ModAdd(x: nat, a: nat)
    requires a > 0
    ensures (x + a) % a == x % a
  {
    var q, r := x / a, x % a;
    assert x + a == a * (q + 1) + r;
    DivModUnique(x + a, a, q + 1, r);
  }

  lemma {:induction false} MulMono(c: int, a: int, b: int)
    requires c >= 0
    ensures a <= b ==> c * a <= c * b
  {
    if a <= b {
      MulNonNegative(c, b - a);
      assert c * (b - a) == c * b - c * a;
    }
  }

  lemma MulNonNegative(a: int, b: int)
    requires a >= 0 && b >= 0
    ensures a * b >= 0
  {
  }

  lemma DivModUnique(x: nat, a: nat, q: nat, r: nat)
    requires a > 0 && r < a && x == a * q + r
    ensures x / a == q && x % a == r
  {
    var q', r' := x / a, x % a;
    assert x == a * q' + r' && 0 <= r' < a;
    DivModSame(a, q, r, q', r');
  }

  lemma DivModSame(a: nat, q: int, r: int, q': int, r': int)
    requires 0 <= r < a && 0 <= r' < a && a * q + r == a * q' + r'
    ensures q == q' && r == r'
  {
    assert a * (q' - q) == r - r';
    if q' > q {
      MulMono(a, 1, q' - q);
    } else if q' < q {
      assert a * (q - q') == -(a * (q' - q));
      MulMono(a, 1, q - q');
    }
  }

  function Pow2(k: nat): (p: nat)
    ensures p > 0
  {
    if k == 0 then 1 else 2 * Pow2(k - 1)
  }

  function Concat<T>(ss: seq<seq<T>>): seq<T> {
    if ss == [] then [] else ss[0] + Concat(ss[1..])
  }

  lemma {:induction false} ConcatSplit<T>(a: seq<seq<T>>, b: seq<seq<T>>)
    ensures Concat(a + b) == Concat(a) + Concat(b)
  {
    if a == [] {
      assert a + b == b;
    } else {
      ConcatSplit(a[1..], b);
      assert (a + b)[1..] == a[1..] + b && (a + b)[0] == a[0];
      hide Concat;
      assert a[0] + (Concat(a[1..]) + Concat(b)) == a[0] + Concat(a[1..]) + Concat(b);
    }
  }

  lemma JoinThree<T>(a: seq<T>, b: seq<T>, c: seq<T>)
    ensures a + b + c == a + (b + c)
  {
  }

  lemma SameAfter<T>(p: seq<T>, a: seq<T>, b: seq<T>)
    ensures p + a == p + b <==> a == b
  {
    if p + a == p + b {
      assert a == (p + a)[|p|..] && b == (p + b)[|p|..];
    }
  }

  lemma SameBefore<T>(a: seq<T>, b: seq<T>, y: seq<T>)
    ensures a + y == b + y <==> a == b
  {
    if a + y == b + y {
      assert |a| == |b| && a == (a + y)[..|a|] && b == (b + y)[..|b|];
    }
  }

  lemma ConcatOne<T>(s: seq<T>)
    ensures Concat([s]) == s
  {
    assert Concat([s]) == s + Concat([]);
  }

  lemma ConcatSnoc<T>(a: seq<seq<T>>, s: seq<T>)
    ensures Concat(a + [s]) == Concat(a) + s
  {
    ConcatSplit(a, [s]);
    ConcatOne(s);
  }
}
