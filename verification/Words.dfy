/** Machine words: little-endian loads and stores, and the bit-mask test that stands for divisibility. */
module Words {

  const TWO32 := 0x1_0000_0000

  type byte = x: int | 0 <= x < 0x100
  type u16 = x: int | 0 <= x < 0x1_0000
  type u32 = x: int | 0 <= x < 0x1_0000_0000

  /** The address space from some base pointer on. Total: C reads whatever lies there. */
  type Memory = nat -> byte

  function Le16(x: u16): seq<byte> {
    [x % 256, x / 256]
  }

  function Le32(x: u32): seq<byte> {
    [x % 256, x / 256 % 256, x / 65536 % 256, x / 16777216]
  }

  function Load16(m: Memory, p: nat): u16 {
    m(p) + 256 * m(p + 1)
  }

  function Load32(m: Memory, p: nat): u32 {
    m(p) + 256 * m(p + 1) + 65536 * m(p + 2) + 16777216 * m(p + 3)
  }

  function Bytes(m: Memory, p: nat, n: nat): (s: seq<byte>)
    ensures |s| == n
  {
    seq(n, i requires 0 <= i < n => m(p + i))
  }

  /** Memory holds the byte string `s` at offset `p`. */
  ghost predicate Holds(m: Memory, p: nat, s: seq<byte>) {
    forall i :: 0 <= i < |s| ==> m(p + i) == s[i]
  }

  lemma {:induction false} HoldsSplit(m: Memory, p: nat, s: seq<byte>, t: seq<byte>)
    requires Holds(m, p, s + t)
    ensures Holds(m, p, s) && Holds(m, p + |s|, t)
  {
    forall i | 0 <= i < |s| ensures m(p + i) == s[i] {
      assert (s + t)[i] == s[i];
    }
    forall i | 0 <= i < |t| ensures m(p + |s| + i) == t[i] {
      assert (s + t)[|s| + i] == t[i];
    }
  }

  /** Memory that holds `image` and zeros after it. */
  function MemoryOf(image: seq<byte>): (m: Memory)
    ensures Holds(m, 0, image)
  {
    (i: nat) => if i < |image| then image[i] else 0
  }

  lemma {:induction false} HoldsBytes(m: Memory, p: nat, s: seq<byte>)
    requires Holds(m, p, s)
    ensures Bytes(m, p, |s|) == s
  {
    forall i | 0 <= i < |s| ensures Bytes(m, p, |s|)[i] == s[i] {
    }
  }

  lemma {:induction false} Load16Le16(m: Memory, p: nat, x: u16)
    requires Holds(m, p, Le16(x))
    ensures Load16(m, p) == x
  {
    assert m(p + 0) == Le16(x)[0] && m(p + 1) == Le16(x)[1];
  }

  lemma {:induction false} Load32Le32(m: Memory, p: nat, x: u32)
    requires Holds(m, p, Le32(x))
    ensures Load32(m, p) == x
  {
    var s, y: int := Le32(x), x;
    assert m(p + 0) == s[0] && m(p + 1) == s[1] && m(p + 2) == s[2] && m(p + 3) == s[3];
    assert y == 256 * (y / 256) + y % 256;
    assert y / 256 == 256 * (y / 65536) + y / 256 % 256;
    assert y / 65536 == 256 * (y / 16777216) + y / 65536 % 256;
  }

  lemma {:induction false} WordBytes(a: int, b: int, c: int, d: int, x: int)
    requires 0 <= a < 256 && 0 <= b < 256 && 0 <= c < 256 && 0 <= d < 256
    requires x == a + 256 * b + 65536 * c + 16777216 * d
    ensures x % 256 == a && x / 256 % 256 == b && x / 65536 % 256 == c && x / 16777216 % 256 == d
  {
    assert x / 256 == b + 256 * c + 65536 * d;
    assert x / 65536 == c + 256 * d;
    assert x / 16777216 == d;
  }

  /** Storing a loaded word gives back the four bytes it was loaded from. */
  lemma {:induction false} Le32Load32(m: Memory, p: nat)
    ensures Le32(Load32(m, p)) == Bytes(m, p, 4)
  {
    WordBytes(m(p), m(p + 1), m(p + 2), m(p + 3), Load32(m, p));
    assert Bytes(m, p, 4) == [m(p + 0), m(p + 1), m(p + 2), m(p + 3)];
  }

  // ---------------------------------------------------------------- bit masks

  function Pow2(e: nat): (p: nat)
    ensures p >= 1
  {
    if e == 0 then 1 else 2 * Pow2(e - 1)
  }

  ghost predicate IsPow2(n: nat) {
    exists e :: n == Pow2(e)
  }

  /** Bitwise and of two naturals. */
  function And(a: nat, b: nat): nat {
    if a == 0 then 0 else 2 * And(a / 2, b / 2) + (a % 2) * (b % 2)
  }

  /** Bitwise complement in a word of `w` bits. */
  function Not(w: nat, x: nat): nat
    requires x < Pow2(w)
  {
    Pow2(w) - 1 - x
  }

  /** `x == (x & ~(size - 1))`, computed in `w`-bit words. */
  predicate PassesMask(w: nat, x: nat, size: nat)
    requires 0 < size <= Pow2(w)
  {
    x == And(x, Not(w, size - 1))
  }

  lemma {:induction false} Pow2Monotone(d: nat, e: nat)
    requires d <= e
    ensures Pow2(d) <= Pow2(e)
  {
    if d < e { Pow2Monotone(d, e - 1); }
  }

  lemma {:induction false} Pow2Add(d: nat, e: nat)
    ensures Pow2(d + e) == Pow2(d) * Pow2(e)
  {
    if d > 0 {
      Pow2Add(d - 1, e);
      Doubled(Pow2(d - 1), Pow2(e));
    }
  }

  lemma {:induction false} Doubled(a: nat, b: nat)
    ensures 2 * a * b == 2 * (a * b)
  {
  }

  lemma {:induction false} MulGap(a: nat, b: nat, d: nat)
    requires a < b
    ensures a * d + d <= b * d
  {
    assert b * d == a * d + (b - a) * d;
    assert (b - a) * d == d + (b - a - 1) * d;
  }

  lemma {:induction false} MulMonotone(a: nat, b: nat, d: nat)
    requires a <= b
    ensures a * d <= b * d
  {
    if a < b { MulGap(a, b, d); }
  }

  lemma {:induction false} DivMonotone(a: nat, b: nat, d: nat)
    requires a <= b && d > 0
    ensures a / d <= b / d
  {
    if b / d < a / d { MulGap(b / d, a / d, d); }
  }

  lemma {:induction false} Distribute(a: nat, b: nat, d: nat)
    ensures (a + b) * d == a * d + b * d
  {
  }

  lemma {:induction false} DivModUnique(x: nat, d: nat, q: nat, r: nat)
    requires d > 0 && r < d && x == q * d + r
    ensures x / d == q && x % d == r
  {
    if x / d < q {
      MulGap(x / d, q, d);
    } else if q < x / d {
      MulGap(q, x / d, d);
    }
  }

  lemma {:induction false} DivModIdentity(x: nat, d: nat, q: nat, r: nat)
    requires d > 0 && q == x / d && r == x % d
    ensures x == q * d + r && r < d
  {
  }

  lemma {:induction false} DivExact(x: nat, d: nat)
    requires d > 0 && x % d == 0
    ensures x == x / d * d
  {
  }

  lemma {:induction false} DivTimes(x: nat, d: nat)
    requires d > 0
    ensures x / d * d <= x && x / d <= x
  {
    if x < x / d { MulGap(x, x / d, d); }
  }

  lemma {:induction false} HalveMod(x: nat, d: nat)
    requires d > 0
    ensures x % (2 * d) == 2 * (x / 2 % d) + x % 2
  {
    var y := x / 2;
    var q, r := y / d, y % d;
    assert y == q * d + r;
    assert x == 2 * y + x % 2;
    assert 2 * (q * d) == q * (2 * d);
    DivModUnique(x, 2 * d, q, 2 * r + x % 2);
  }

  lemma {:induction false} AndOnes(w: nat, x: nat)
    requires x < Pow2(w)
    ensures And(x, Pow2(w) - 1) == x
  {
    if x != 0 {
      AndOnes(w - 1, x / 2);
      assert (Pow2(w) - 1) / 2 == Pow2(w - 1) - 1;
    }
  }

  lemma {:induction false} DoubledMultiple(x: nat, d: nat, a: nat)
    requires d > 0 && a == x / 2 - x / 2 % d
    ensures 2 * a == x - x % (2 * d)
  {
    HalveMod(x, d);
  }

  /** The low bit of `x` meets the low bit of an even mask. */
  lemma {:induction false} AndEven(x: nat, mask: nat)
    ensures And(x, 2 * mask) == 2 * And(x / 2, mask)
  {
    assert 2 * mask / 2 == mask && 2 * mask % 2 == 0;
  }

  lemma {:induction false} AndMask(w: nat, e: nat, x: nat, p: nat, d: nat)
    requires e <= w && p == Pow2(w) && d == Pow2(e) && x < p && d <= p
    ensures And(x, p - d) == x - x % d
  {
    if e == 0 {
      AndOnes(w, x);
    } else {
      var p', d' := Pow2(w - 1), Pow2(e - 1);
      AndMask(w - 1, e - 1, x / 2, p', d');
      AndEven(x, p' - d');
      DoubledMultiple(x, d', And(x / 2, p' - d'));
    }
  }

  lemma {:induction false} AndComplement(w: nat, x: nat)
    requires x < Pow2(w)
    ensures And(x, Not(w, x)) == 0
  {
    if x != 0 {
      AndComplement(w - 1, x / 2);
      assert Not(w, x) / 2 == Not(w - 1, x / 2);
      assert Not(w, x) % 2 == 1 - x % 2;
    }
  }

  /** A size that passes its own mask test is a power of two. */
  lemma {:induction false} SelfMaskIsPow2(w: nat, size: nat) returns (e: nat)
    requires 0 < size <= Pow2(w) && PassesMask(w, size, size)
    ensures e <= w && size == Pow2(e)
  {
    if size == 1 {
      e := 0;
    } else if size % 2 == 1 {
      AndComplement(w - 1, size / 2);
      assert false;
    } else {
      assert Not(w, size - 1) / 2 == Not(w - 1, size / 2 - 1);
      assert Not(w, size - 1) % 2 == 0;
      var d := SelfMaskIsPow2(w - 1, size / 2);
      e := d + 1;
    }
  }

  /** The mask test decides divisibility for every value exactly when the size is a power of two. */
  lemma {:induction false} MaskDecidesDivisibility(w: nat, size: nat)
    requires 0 < size < Pow2(w)
    ensures (forall x: nat :: x < Pow2(w) ==> (PassesMask(w, x, size) <==> x % size == 0)) <==> IsPow2(size)
  {
    if forall x: nat :: x < Pow2(w) ==> (PassesMask(w, x, size) <==> x % size == 0) {
      assert PassesMask(w, size, size);
      var e := SelfMaskIsPow2(w, size);
    }
    if IsPow2(size) {
      var e :| size == Pow2(e);
      if w < e { Pow2Monotone(w, e); }
      forall x: nat | x < Pow2(w) ensures PassesMask(w, x, size) <==> x % size == 0 {
        AndMask(w, e, x, Pow2(w), size);
      }
    }
  }

  lemma {:induction false} ScaledMod(c: nat, k: nat, size: nat)
    requires k > 0 && size > 0
    ensures 0 < size * k && c * size % (size * k) == c % k * size
  {
    var q, r := c / k, c % k;
    assert c == q * k + r;
    MulGap(r, k, size);
    assert c * size == q * (size * k) + r * size;
    DivModUnique(c * size, size * k, q, r * size);
  }

  lemma {:induction false} Pow2Of32()
    ensures Pow2(32) == TWO32
  {
    assert Pow2(4) == 16;
    Pow2Add(4, 4);
    Pow2Add(8, 8);
    Pow2Add(16, 16);
  }

  lemma {:induction false} Pow2Cofactor(e: nat) returns (k: nat)
    requires Pow2(e) <= TWO32
    ensures k > 0 && Pow2(e) * k == TWO32
  {
    Pow2Of32();
    if e > 32 { Pow2Monotone(33, e); }
    Pow2Add(e, 32 - e);
    k := Pow2(32 - e);
  }

  lemma {:induction false} FactorOut(size: nat, a: nat, n: nat)
    requires size > 0 && a % size == 0
    ensures a * n == a / size * n * size
  {
    var q := a / size;
    assert a == q * size;
    assert q * size * n == q * n * size;
  }

  /** A power of two up to 2^32 that divides `a` also divides every product `a * n` reduced to 32 bits. */
  lemma {:induction false} WrapKeepsDivisor(size: nat, a: nat, n: nat)
    requires IsPow2(size) && size <= TWO32 && a % size == 0
    ensures a * n % TWO32 % size == 0
  {
    var e :| size == Pow2(e);
    var k := Pow2Cofactor(e);
    var c := a / size * n;
    FactorOut(size, a, n);
    ScaledMod(c, k, size);
    DivModUnique(c % k * size, size, c % k, 0);
  }
}
