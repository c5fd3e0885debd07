// Bytes, little-endian words, splices, and the few division facts that the drivers' address arithmetic needs.

/** Several routines of the repository miss their own intent in one place.  `AsShipped` is the code as it stands,
    `Repaired` the same code with the one repair that is marked where it is made. */
module Revisions {
  datatype Revision = AsShipped | Repaired
}

module Options {
  datatype Option<T> = None | Some(value: T)
}

module Bytes {
  newtype byte = x: int | 0 <= x < 0x100

  const TWO_TO_THE_31: int := 0x8000_0000
  const TWO_TO_THE_32: int := 0x1_0000_0000
  const TWO_TO_THE_64: int := 0x1_0000_0000_0000_0000

  function Min(a: int, b: int): int {
    if a < b then a else b
  }

  /** The value of the `int` that C makes of `x` on a two's complement machine. */
  function ToInt32(x: int): int {
    var w := x % TWO_TO_THE_32;
    if w < TWO_TO_THE_31 then w else w - TWO_TO_THE_32
  }

  /** It is the one number of that range that `x` differs from by a multiple of 2 to the 32. */
  lemma ToInt32Is(x: int, r: int)
    ensures ToInt32(x) == r <==> -TWO_TO_THE_31 <= r < TWO_TO_THE_31 && (x - r) % TWO_TO_THE_32 == 0
  {}

  lemma ToInt32Near(x: int)
    ensures -TWO_TO_THE_31 <= x < TWO_TO_THE_31 ==> ToInt32(x) == x
    ensures TWO_TO_THE_31 <= x < TWO_TO_THE_32 ==> ToInt32(x) == x - TWO_TO_THE_32
  {
    assert -TWO_TO_THE_31 <= x < 0 ==> x % TWO_TO_THE_32 == x + TWO_TO_THE_32;
  }

  function U16At(s: seq<byte>, at: nat): (r: nat)
    requires at + 2 <= |s|
    ensures r < 0x1_0000
  {
    s[at] as int + 0x100 * s[at + 1] as int
  }

  function U32At(s: seq<byte>, at: nat): nat
    requires at + 4 <= |s|
  {
    U16At(s, at) + 0x1_0000 * U16At(s, at + 2)
  }

  function U16(x: nat): (s: seq<byte>)
    requires x < 0x1_0000
    ensures |s| == 2
    ensures U16At(s, 0) == x
  {
    [(x % 0x100) as byte, (x / 0x100) as byte]
  }

  function U32(x: nat): (s: seq<byte>)
    requires x < TWO_TO_THE_32
    ensures |s| == 4
    ensures U32At(s, 0) == x
  {
    U16(x % 0x1_0000) + U16(x / 0x1_0000)
  }

  /** The low byte comes first. */
  lemma WordsAreLittleEndian()
    ensures U16At([0x34, 0x12], 0) == 0x1234 && U16(0x1234) == [0x34, 0x12]
    ensures U32At([0x78, 0x56, 0x34, 0x12], 0) == 0x1234_5678 && U32(0x1234_5678) == [0x78, 0x56, 0x34, 0x12]
  {}

  /** `s` with `data` written over it from position `at`. */
  function Splice(s: seq<byte>, at: nat, data: seq<byte>): (r: seq<byte>)
    requires at + |data| <= |s|
    ensures |r| == |s|
    ensures forall k | 0 <= k < |s| :: r[k] == if at <= k < at + |data| then data[k - at] else s[k]
  {
    s[..at] + data + s[at + |data|..]
  }

  /** 2 to the power `k`. */
  function Pow2(k: nat): (r: nat)
    ensures r >= 1
  {
    if k == 0 then 1 else 2 * Pow2(k - 1)
  }

  lemma {:induction false} Pow2Adds(j: nat, k: nat)
    ensures Pow2(j + k) == Pow2(j) * Pow2(k)
  {
    if j > 0 {
      Pow2Adds(j - 1, k);
    }
  }

  lemma MultipleIsLarge(e: int, d: int)
    requires d > 0
    ensures e >= 1 ==> e * d >= d
    ensures e <= -1 ==> e * d <= -d
  {
    if e >= 1 {
      assert (e - 1) * d >= 0;
    } else if e <= -1 {
      assert (-e - 1) * d >= 0;
    }
  }

  lemma MultipleGrows(a: nat, b: nat, d: nat)
    requires a <= b
    ensures a * d <= b * d
  {}

  lemma ProductOfNats(a: nat, b: nat)
    ensures a * b >= 0
  {}

  lemma DivModIs(a: int, d: int, q: int, r: int)
    requires 0 <= r < d
    requires a == q * d + r
    ensures a / d == q && a % d == r
  {
    var q', r' := a / d, a % d;
    assert a == q' * d + r';
    assert (q' - q) * d == q' * d - q * d;
    MultipleIsLarge(q' - q, d);
  }

  lemma DivModSplit(a: int, d: int)
    requires d > 0
    ensures a == a / d * d + a % d && 0 <= a % d < d
    ensures a >= 0 ==> a / d >= 0
  {
    DivBelow(a, d, 0);
  }

  lemma DivMonotone(a: int, b: int, d: int)
    requires a <= b && d > 0
    ensures a / d <= b / d
  {
    var q, r, q', r' := a / d, a % d, b / d, b % d;
    assert a == q * d + r && b == q' * d + r';
    assert (q - q') * d == q * d - q' * d;
    MultipleIsLarge(q - q', d);
  }

  lemma DivBelow(a: int, d: int, q: int)
    requires d > 0
    ensures a < q * d <==> a / d < q
  {
    var q', r' := a / d, a % d;
    assert a == q' * d + r';
    assert (q - q') * d == q * d - q' * d;
    MultipleIsLarge(q - q', d);
  }
}
