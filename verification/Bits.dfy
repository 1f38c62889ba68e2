/** Arithmetic of fixed-width words: powers of two, little-endian bytes and bitwise or,
    all on unbounded naturals. */
module Bits {

  const TWO64: nat := 0x1_0000_0000_0000_0000

  /** 64-bit wrap-around. */
  function Mod64(x: nat): (r: nat)
    ensures r < TWO64
    ensures x < TWO64 ==> r == x
    ensures TWO64 <= x < 2 * TWO64 ==> r == x - TWO64
  {
    x % TWO64
  }

  function Pow2(n: nat): (p: nat)
    ensures p >= 1
  {
    if n == 0 then 1 else 2 * Pow2(n - 1)
  }

  lemma {:induction false} Pow2Add(a: nat, b: nat)
    ensures Pow2(a + b) == Pow2(a) * Pow2(b)
  {
    if a == 0 {
    } else {
      Pow2Add(a - 1, b);
      assert Pow2(a + b) == 2 * Pow2(a - 1 + b);
    }
  }

  lemma Pow2Of8()
    ensures Pow2(8) == 256
  {
  }

  lemma Pow2Of64()
    ensures Pow2(64) == TWO64 && Pow2(8) == 256
  {
    hide Pow2;
    Pow2Of8();
    Pow2Add(8, 8);
    Pow2Add(16, 16);
    Pow2Add(32, 32);
  }

  lemma {:induction false} Pow2Above(n: nat)
    ensures n < Pow2(n)
  {
    if n > 0 { Pow2Above(n - 1); }
  }

  /** The low `w` bits of `v`. */
  function Truncate(v: nat, w: nat): (r: nat)
    ensures r < Pow2(w)
  {
    v % Pow2(w)
  }

  lemma TruncateSmall(v: nat, w: nat)
    requires v < Pow2(w)
    ensures Truncate(v, w) == v
  {
    QuotientUnique(v, Pow2(w), 0, v);
  }

  function ShiftLeft(v: nat, k: nat): nat { v * Pow2(k) }

  function ShiftRight(v: nat, k: nat): nat { QuotientNatural(v, Pow2(k)); v / Pow2(k) }

  lemma QuotientNatural(v: nat, d: nat)
    requires d > 0
    ensures v / d >= 0
  {
    assert v == d * (v / d) + v % d;
    MulAway(v / d, d);
  }

  /** The `n` low bytes of `v`, least significant first. */
  function Bytes(v: nat, n: nat): (s: seq<nat>)
    ensures |s| == n
    decreases n
  {
    if n == 0 then [] else [v % 256] + Bytes(v / 256, n - 1)
  }

  /** The word whose bytes, least significant first, are `s`. */
  function LittleEndian(s: seq<nat>): nat {
    if s == [] then 0 else s[0] + 256 * LittleEndian(s[1..])
  }

  function ByteOf(v: nat, i: nat): (b: nat)
    ensures b < 256
  {
    (v / Pow2(8 * i)) % 256
  }

  lemma MulAway(k: int, d: int)
    requires d > 0
    ensures k >= 1 ==> k * d >= d
    ensures k <= -1 ==> k * d <= -d
  {
    if k >= 1 {
      assert (k - 1) * d >= 0;
    } else if k <= -1 {
      assert (-k - 1) * d >= 0;
    }
  }

  /** A word of `u` values above a word of `w` values. */
  lemma PairFits(a: nat, u: nat, b: nat, w: nat)
    requires a < u && b < w
    ensures a * w + b < u * w
  {
    MulAway(u - a, w);
    assert (u - a) * w == u * w - a * w;
  }

  lemma MulGrows(a: nat, d: nat)
    requires d > 0
    ensures a * d >= a
  {
    assert a * d == a * (d - 1) + a;
  }

  lemma QuotientSmaller(v: nat, d: nat)
    requires d > 0
    ensures v / d <= v
  {
    MulGrows(v / d, d);
  }

  lemma QuotientUnique(v: int, d: int, q: int, r: int)
    requires d > 0 && v == q * d + r && 0 <= r < d
    ensures v / d == q && v % d == r
  {
    var k := v / d - q;
    assert v == d * (v / d) + v % d;
    assert k * d == r - v % d;
    MulAway(k, d);
  }

  lemma DivDiv(v: nat, a: nat, b: nat)
    requires a > 0 && b > 0
    ensures a * b > 0 && v / a / b == v / (a * b)
  {
    DivDivRemainder(v, v / a, a, b);
  }

  lemma DivDivRemainder(v: nat, q: nat, a: nat, b: nat)
    requires a > 0 && b > 0 && q == v / a
    ensures a * b > 0 && q / b == v / (a * b) && v % (a * b) == (q % b) * a + v % a
  {
    var r, q', r' := v % a, q / b, q % b;
    assert q == b * q' + r';
    assert v == q' * (a * b) + (r' * a + r) by {
      assert v == a * q + r;
      assert a * (b * q' + r') == q' * (a * b) + r' * a;
    }
    assert a * b > 0 && 0 <= r' * a + r < a * b by {
      MulAway(b, a);
      MulAway(b - r', a);
      assert (b - r') * a == b * a - r' * a;
      assert r' * a >= 0;
    }
    QuotientUnique(v, a * b, q', r' * a + r);
  }

  lemma {:induction false} BytesAt(v: nat, n: nat, i: nat)
    requires i < n
    ensures Bytes(v, n)[i] == ByteOf(v, i)
  {
    if i > 0 {
      BytesAt(v / 256, n - 1, i - 1);
      Pow2Add(8, 8 * (i - 1));
      assert Pow2(8) == 256;
      DivDiv(v, 256, Pow2(8 * (i - 1)));
    }
  }

  /** Splitting a word into bytes and assembling them again keeps the low bits. */
  lemma {:induction false} AssembleBytes(v: nat, n: nat)
    ensures LittleEndian(Bytes(v, n)) == v % Pow2(8 * n)
  {
    if n == 0 {
    } else {
      AssembleBytes(v / 256, n - 1);
      var p := Pow2(8 * (n - 1));
      assert Pow2(8 * n) == 256 * p by { Pow2Add(8, 8 * (n - 1)); assert Pow2(8) == 256; }
      assert Bytes(v, n)[1..] == Bytes(v / 256, n - 1);
      assert v % (256 * p) == (v / 256 % p) * 256 + v % 256 by { DivDivRemainder(v, v / 256, 256, p); }
    }
  }

  lemma {:induction false} LittleEndianBound(s: seq<nat>)
    requires forall i :: 0 <= i < |s| ==> s[i] < 256
    ensures LittleEndian(s) < Pow2(8 * |s|)
  {
    if s != [] {
      LittleEndianBound(s[1..]);
      Pow2Add(8, 8 * (|s| - 1));
      assert Pow2(8) == 256;
    }
  }

  lemma {:induction false} LittleEndianConcat(s: seq<nat>, t: seq<nat>)
    ensures LittleEndian(s + t) == LittleEndian(s) + Pow2(8 * |s|) * LittleEndian(t)
  {
    if s == [] {
      assert s + t == t;
    } else {
      LittleEndianConcat(s[1..], t);
      assert (s + t)[1..] == s[1..] + t;
      var p := Pow2(8 * (|s| - 1));
      assert Pow2(8 * |s|) == 256 * p by { Pow2Add(8, 8 * (|s| - 1)); assert Pow2(8) == 256; }
      assert 256 * (p * LittleEndian(t)) == (256 * p) * LittleEndian(t);
    }
  }

  /** Two words with the same bytes are the same word. */
  lemma {:induction false} BytesOfAssembled(s: seq<nat>)
    requires forall i :: 0 <= i < |s| ==> s[i] < 256
    ensures Bytes(LittleEndian(s), |s|) == s
  {
    if s != [] {
      BytesOfAssembled(s[1..]);
      var v := LittleEndian(s);
      QuotientUnique(v, 256, LittleEndian(s[1..]), s[0]);
    }
  }

  /** Bitwise or. */
  function BitOr(a: nat, b: nat): nat {
    if a == 0 && b == 0 then 0 else (if a % 2 == 1 || b % 2 == 1 then 1 else 0) + 2 * BitOr(a / 2, b / 2)
  }

  lemma {:induction false} OrZero(b: nat)
    ensures BitOr(0, b) == b
  {
    if b != 0 { OrZero(b / 2); }
  }

  /** Words that share no bit position add up. */
  lemma {:induction false} OrDisjoint(a: nat, b: nat, k: nat)
    requires a < Pow2(k)
    ensures BitOr(a, b * Pow2(k)) == a + b * Pow2(k)
  {
    if k == 0 {
      OrZero(b);
    } else {
      var p := b * Pow2(k - 1);
      assert b * Pow2(k) == 2 * p by { assert b * (2 * Pow2(k - 1)) == 2 * (b * Pow2(k - 1)); }
      OrDisjoint(a / 2, b, k - 1);
      assert 2 * p / 2 == p && (2 * p) % 2 == 0;
      if a == 0 && p == 0 { } else { assert BitOr(a, 2 * p) == a % 2 + 2 * BitOr(a / 2, p); }
    }
  }

  lemma OneByte(b: nat)
    ensures LittleEndian([b]) == b
  {
    assert [b][1..] == [];
  }

  /** Cutting above and then below is cutting below and then above. */
  lemma CutQuotient(v: nat, d: nat, e: nat)
    requires d > 0 && e > 0
    ensures d * e > 0 && v % (d * e) / d == v / d % e
  {
    DivDivRemainder(v, v / d, d, e);
    QuotientUnique(v % (d * e), d, v / d % e, v % d);
  }

  /** Byte `k + j` of a word is byte `j` of the word shifted down by `k` bytes. */
  lemma ByteOfShifted(v: nat, k: nat, j: nat)
    ensures ByteOf(ShiftRight(v, 8 * k), j) == ByteOf(v, k + j)
  {
    Pow2Add(8 * k, 8 * j);
    DivDiv(v, Pow2(8 * k), Pow2(8 * j));
  }

  /** Assembling consecutive bytes of a word extracts a bit field of it. */
  lemma ConsecutiveBytes(v: nat, k: nat, bytes: seq<nat>)
    requires forall j :: 0 <= j < |bytes| ==> bytes[j] == ByteOf(v, k + j)
    ensures LittleEndian(bytes) == Truncate(ShiftRight(v, 8 * k), 8 * |bytes|)
  {
    var u := ShiftRight(v, 8 * k);
    forall j | 0 <= j < |bytes| ensures bytes[j] == Bytes(u, |bytes|)[j] {
      ByteOfShifted(v, k, j);
      BytesAt(u, |bytes|, j);
    }
    assert bytes == Bytes(u, |bytes|);
    AssembleBytes(u, |bytes|);
  }

  /** Writing back the bytes that were read changes none of them. */
  lemma BytesReadBack(bytes: seq<nat>, j: nat)
    requires j < |bytes| && forall i :: 0 <= i < |bytes| ==> bytes[i] < 256
    ensures ByteOf(LittleEndian(bytes), j) == bytes[j]
  {
    BytesOfAssembled(bytes);
    BytesAt(LittleEndian(bytes), |bytes|, j);
  }
}
