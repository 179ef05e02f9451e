/** Words as the wire sees them: least significant bit first. */
module Bits {

  type u8 = n: nat | n < 0x100
  type u16 = n: nat | n < 0x1_0000
  type u32 = n: nat | n < 0x1_0000_0000

  function Pow2(w: nat): (p: nat)
    ensures p > 0
  {
    if w == 0 then 1 else 2 * Pow2(w - 1)
  }

  /** The low `w` bits of `n`, least significant first: what shifting `n` right one bit at a time yields. */
  function ToBits(n: nat, w: nat): (bits: seq<bool>)
    ensures |bits| == w
  {
    if w == 0 then [] else [n % 2 == 1] + ToBits(n / 2, w - 1)
  }

  function Bit(b: bool): nat { if b then 1 else 0 }

  function FromBits(bits: seq<bool>): nat {
    if bits == [] then 0 else Bit(bits[0]) + 2 * FromBits(bits[1..])
  }

  /** How many bits of `n` are one. */
  function CountOnes(n: nat): nat {
    if n == 0 then 0 else n % 2 + CountOnes(n / 2)
  }

  /** True for an odd number of one bits. */
  predicate Parity(n: nat) { CountOnes(n) % 2 == 1 }

  function Ones(bits: seq<bool>): nat {
    if bits == [] then 0 else Bit(bits[0]) + Ones(bits[1..])
  }

  lemma {:induction false} FromBitsBound(bits: seq<bool>)
    ensures FromBits(bits) < Pow2(|bits|)
  {
    if bits == [] {
    } else {
      FromBitsBound(bits[1..]);
    }
  }

  lemma Pow2At32()
    ensures Pow2(32) == 0x1_0000_0000
  {
    assert Pow2(8) == 0x100;
    assert Pow2(16) == 0x1_0000;
    assert Pow2(24) == 0x100_0000;
  }

  /** Accumulating bit `|bits|` on top of the bits already read. */
  lemma {:induction false} FromBitsSnoc(bits: seq<bool>, b: bool)
    ensures FromBits(bits + [b]) == FromBits(bits) + Bit(b) * Pow2(|bits|)
  {
    if bits == [] {
      assert [b][1..] == [];
    } else {
      assert (bits + [b])[1..] == bits[1..] + [b];
      FromBitsSnoc(bits[1..], b);
    }
  }

  /** Bit `k` of a number. */
  lemma {:induction false} BitAt(n: nat, w: nat, k: nat)
    requires k < w
    ensures ToBits(n, w)[k] == (n / Pow2(k) % 2 == 1)
  {
    if k == 0 {
    } else {
      BitAt(n / 2, w - 1, k - 1);
      DivTwice(n, Pow2(k - 1));
    }
  }

  lemma DivTwice(n: nat, p: nat)
    requires p > 0
    ensures n / 2 / p == n / (2 * p)
  {
    var (a, r) := (n / 2, n % 2);
    var (q, m) := (a / p, a % p);
    assert a == q * p + m && m < p;
    Times(q, p);
    DivIs(n, 2 * p, q, 2 * m + r);
  }

  lemma Times(q: nat, p: nat)
    ensures q * (2 * p) == 2 * (q * p)
  {
  }

  /** A quotient is known by its remainder. */
  lemma DivIs(n: nat, d: nat, q: nat, r: nat)
    requires n == q * d + r && r < d
    ensures n / d == q
  {
    var (p, s) := (n / d, n % d);
    assert n == p * d + s && s < d;
    if p < q {
      TimesAscend(p + 1, q, d);
    } else if q < p {
      TimesAscend(q + 1, p, d);
    }
  }

  lemma TimesAscend(a: nat, b: nat, d: nat)
    requires a <= b
    ensures a * d <= b * d
  {
    assert (b - a) * d >= 0;
  }

  lemma {:induction false} BitsRoundTrip(n: nat, w: nat)
    requires n < Pow2(w)
    ensures FromBits(ToBits(n, w)) == n
  {
    if w == 0 {
    } else {
      assert ToBits(n, w)[1..] == ToBits(n / 2, w - 1);
      BitsRoundTrip(n / 2, w - 1);
    }
  }

  lemma {:induction false} BitsRoundTripBack(bits: seq<bool>)
    ensures ToBits(FromBits(bits), |bits|) == bits
  {
    if bits == [] {
    } else {
      var n := FromBits(bits);
      assert n / 2 == FromBits(bits[1..]) && (n % 2 == 1) == bits[0];
      BitsRoundTripBack(bits[1..]);
      assert bits == [bits[0]] + bits[1..];
    }
  }

  lemma {:induction false} OnesOfBits(n: nat, w: nat)
    requires n < Pow2(w)
    ensures Ones(ToBits(n, w)) == CountOnes(n)
  {
    if w == 0 {
    } else {
      assert ToBits(n, w)[1..] == ToBits(n / 2, w - 1);
      OnesOfBits(n / 2, w - 1);
    }
  }

  /** Setting the bit just above a value adds it as the next bit sent. */
  lemma {:induction false} ToBitsTop(n: nat, w: nat, b: bool)
    requires n < Pow2(w)
    ensures ToBits(n + Bit(b) * Pow2(w), w + 1) == ToBits(n, w) + [b]
  {
    if w == 0 {
      assert n == 0;
      assert ToBits(Bit(b), 1) == [b];
    } else {
      var m := n + Bit(b) * Pow2(w);
      assert m / 2 == n / 2 + Bit(b) * Pow2(w - 1) && m % 2 == n % 2;
      ToBitsTop(n / 2, w - 1, b);
    }
  }

  /** The number of positions in which two bit strings differ. */
  function Distance(a: seq<bool>, b: seq<bool>): nat
    requires |a| == |b|
  {
    if a == [] then 0 else Bit(a[0] != b[0]) + Distance(a[1..], b[1..])
  }

  lemma {:induction false} DistanceParity(a: seq<bool>, b: seq<bool>)
    requires |a| == |b|
    ensures (Ones(a) + Ones(b) + Distance(a, b)) % 2 == 0
  {
    if a == [] {
    } else {
      DistanceParity(a[1..], b[1..]);
    }
  }

  lemma {:induction false} OnesConcat(a: seq<bool>, b: seq<bool>)
    ensures Ones(a + b) == Ones(a) + Ones(b)
  {
    if a == [] {
      assert a + b == b;
    } else {
      assert (a + b)[1..] == a[1..] + b;
      OnesConcat(a[1..], b);
    }
  }

  // Quotient and remainder, by the divisors that occur.

  lemma By4(q: nat, r: nat)
    requires r < 4
    ensures (4 * q + r) / 4 == q && (4 * q + r) % 4 == r
  {
  }

  lemma By8(q: nat, r: nat)
    requires r < 8
    ensures (8 * q + r) / 8 == q && (8 * q + r) % 8 == r
  {
  }

  lemma By256(q: nat, r: nat)
    requires r < 0x100
    ensures (0x100 * q + r) / 0x100 == q && (0x100 * q + r) % 0x100 == r
  {
  }

  lemma By1024(q: nat, r: nat)
    requires r < 0x400
    ensures (0x400 * q + r) / 0x400 == q && (0x400 * q + r) % 0x400 == r
  {
  }

  lemma By2To16(q: nat, r: nat)
    requires r < 0x1_0000
    ensures (0x1_0000 * q + r) / 0x1_0000 == q && (0x1_0000 * q + r) % 0x1_0000 == r
  {
  }

  lemma By2To24(q: nat, r: nat)
    requires r < 0x100_0000
    ensures (0x100_0000 * q + r) / 0x100_0000 == q && (0x100_0000 * q + r) % 0x100_0000 == r
  {
  }

  lemma By2To32(q: nat, r: nat)
    requires r < 0x1_0000_0000
    ensures (0x1_0000_0000 * q + r) / 0x1_0000_0000 == q && (0x1_0000_0000 * q + r) % 0x1_0000_0000 == r
  {
  }
}
