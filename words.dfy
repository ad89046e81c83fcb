/**
 * C# unsigned and signed 32-bit integer arithmetic on mathematical integers:
 * `uint` shifts and additions wrap modulo 2^32, and a shift count is taken
 * modulo 32; an `int` product is truncated to 32 bits in two's complement.
 */
module Words {

  /** 2^32, the modulus of `uint` and `int` arithmetic. */
  const Word: nat := 0x1_0000_0000
  /** 2^31: `int` values lie in [-Half, Half). */
  const Half: nat := 0x8000_0000

  function Pow2(n: nat): (p: nat)
    ensures p >= 1
  {
    if n == 0 then 1 else 2 * Pow2(n - 1)
  }

  /** `byte` */
  type Octet = b: int | 0 <= b < 256

  predicate IsUInt32(x: int) {
    0 <= x < Word
  }

  /** `x << n` on `uint`: the count is masked to its low five bits, the high bits fall off. */
  function ShiftLeft(x: int, n: nat): (r: int)
    requires IsUInt32(x)
    ensures IsUInt32(r)
  {
    (x * Pow2(n % 32)) % Word
  }

  /** `x >> n` on `uint`: the count is masked to its low five bits. */
  function ShiftRight(x: int, n: nat): (r: int)
    requires IsUInt32(x)
    ensures IsUInt32(r) && r <= x
  {
    DivShrinks(x, Pow2(n % 32));
    x / Pow2(n % 32)
  }

  /** `x + y` on `uint` (unchecked). */
  function AddWrap(x: int, y: int): (r: int)
    requires IsUInt32(x) && IsUInt32(y)
    ensures IsUInt32(r)
    ensures x + y < Word ==> r == x + y
  {
    (x + y) % Word
  }

  /** The `int` that an unchecked 32-bit operation with mathematical result x leaves behind. */
  function Wrap32(x: int): (r: int)
    ensures -(Half as int) <= r < Half
    ensures -(Half as int) <= x < Half ==> r == x
  {
    (x + Half) % Word - Half
  }

  /* ------------------------------------------------------------- lemmas */

  lemma {:induction false} DivShrinks(x: nat, d: nat)
    requires d >= 1
    ensures 0 <= x / d <= x
    decreases x
  {
    if x < d {
      DivUnique(x, d, 0, x);
    } else {
      DivShrinks(x - d, d);
      var q, r := (x - d) / d, (x - d) % d;
      assert x - d == q * d + r && 0 <= r < d by {
        DivMod(x - d, d);
      }
      DivUnique(x, d, q + 1, r);
    }
  }

  lemma MulPositive(a: int, b: int)
    requires a >= 1 && b >= 0
    ensures a * b >= b
  {
    assert a * b == b + (a - 1) * b;
    MulNonNegative(a - 1, b);
  }

  lemma {:induction false} MulNonNegative(a: nat, b: nat)
    ensures a * b >= 0
    decreases a
  {
    if a > 0 {
      MulNonNegative(a - 1, b);
      assert a * b == (a - 1) * b + b;
    }
  }

  lemma {:induction false} Pow2Add(a: nat, b: nat)
    ensures Pow2(a + b) == Pow2(a) * Pow2(b)
    decreases a
  {
    if a > 0 {
      Pow2Add(a - 1, b);
      assert Pow2(a + b) == 2 * Pow2(a - 1 + b);
    }
  }

  lemma Pow2Of32()
    ensures Pow2(32) == Word
  {
    assert Pow2(8) == 256;
    Pow2Add(8, 8);
    Pow2Add(16, 16);
  }

  lemma {:induction false} Pow2Grows(a: nat, b: nat)
    requires a <= b
    ensures Pow2(a) <= Pow2(b)
    decreases b
  {
    if a < b {
      Pow2Grows(a, b - 1);
    }
  }

  /** The quotient and remainder of a division are unique. */
  lemma DivUnique(a: int, d: int, q: int, r: int)
    requires d > 0 && 0 <= r < d && a == q * d + r
    ensures a / d == q && a % d == r
  {
    var q', r' := a / d, a % d;
    assert a == q' * d + r';
    if q' > q {
      assert (q' - q) * d == r - r' by {
        assert (q' - q) * d == q' * d - q * d;
      }
      MulPositive(q' - q, d);
    } else if q' < q {
      assert (q - q') * d == r' - r by {
        assert (q - q') * d == q * d - q' * d;
      }
      MulPositive(q - q', d);
    }
  }

  /** Adding a multiple of 2^32 does not change what an unchecked operation leaves. */
  lemma Wrap32Shift(x: int, k: int)
    ensures Wrap32(x + k * Word) == Wrap32(x)
  {
    var q := (x + Half) / Word;
    var r := (x + Half) % Word;
    DivUnique(x + Half + k * Word, Word, q + k, r);
  }

  /** Truncating an intermediate product does not change the truncated final product. */
  lemma Wrap32Mul(x: int, y: int)
    ensures Wrap32(Wrap32(x) * y) == Wrap32(x * y)
  {
    var k := (x + Half) / Word;
    assert Wrap32(x) == x - k * Word;
    assert Wrap32(x) * y == x * y + (-k * y) * Word;
    Wrap32Shift(x * y, -k * y);
  }

  /** Adding a multiple of the modulus leaves the remainder alone. */
  lemma ModShift(z: int, k: int, m: int)
    requires m > 0
    ensures (z + k * m) % m == z % m
  {
    DivUnique(z + k * m, m, z / m + k, z % m);
  }

  lemma MulLessCancel(a: int, b: int, p: int)
    requires p > 0 && a * p < b * p
    ensures a < b
  {
    if a >= b {
      MulMonotone(b, a, p);
    }
  }

  lemma MulMonotone(a: int, b: int, c: nat)
    requires a <= b
    ensures a * c <= b * c
  {
    MulNonNegative(b - a, c);
    assert (b - a) * c == b * c - a * c;
  }

  /**
   * Setting the low s bits of a value whose low s bits are clear never lowers
   * the 8-bit field that starts at bit j: the fields below bit s become all
   * ones, and the others are unchanged.
   */
  lemma FieldGrows(x: nat, s: nat, j: nat)
    requires x % Pow2(s) == 0
    ensures (x / Pow2(j)) % 256 <= ((x + Pow2(s) - 1) / Pow2(j)) % 256
  {
    if j >= s {
      HighPartKept(x, s, j);
    } else {
      FieldBelow(x, s, j);
    }
  }

  /** The field starts below bit s: its shifted value is a multiple of 2^(s-j) that gains 2^(s-j) - 1. */
  lemma FieldBelow(x: nat, s: nat, j: nat)
    requires x % Pow2(s) == 0 && j < s
    ensures (x / Pow2(j)) % 256 <= ((x + Pow2(s) - 1) / Pow2(j)) % 256
  {
    var p, t, M := Pow2(s), Pow2(j), Pow2(s - j);
    assert p == t * M by {
      Pow2Add(j, s - j);
    }
    var u := LowPartFilled(x, p, t, M);
    FieldOfShifted(u, s - j);
  }

  lemma FieldOfShifted(u: int, d: nat)
    requires exists K: nat :: u == K * Pow2(d)
    ensures u % 256 <= (u + Pow2(d) - 1) % 256
  {
    var M := Pow2(d);
    if d >= 8 {
      var W := Pow2(d - 8);
      assert M == 256 * W by {
        Pow2Add(8, d - 8);
        assert Pow2(8) == 256;
      }
      FieldOfMultiple(u, M, W);
    } else {
      var N := Pow2(8 - d);
      assert M * N == 256 by {
        Pow2Add(d, 8 - d);
        assert Pow2(8) == 256;
      }
      FieldNoWrap(u, M, N);
    }
  }

  /** With the low s bits of x clear, setting them does not carry into bit j >= s. */
  lemma HighPartKept(x: nat, s: nat, j: nat)
    requires x % Pow2(s) == 0 && j >= s
    ensures (x + Pow2(s) - 1) / Pow2(j) == x / Pow2(j)
  {
    Pow2Add(s, j - s);
    NoCarry(x, Pow2(s), Pow2(j), Pow2(j - s));
  }

  lemma NoCarry(x: nat, p: nat, t: nat, M: nat)
    requires p >= 1 && M >= 1 && t == p * M && x % p == 0
    ensures (x + p - 1) / t == x / t
  {
    var q, r := x / t, x % t;
    assert x == q * t + r && 0 <= r < t by {
      DivMod(x, t);
    }
    RemainderRoom(x, p, t, M);
    DivUnique(x + p - 1, t, q, r + p - 1);
  }

  /** A multiple of p leaves a remainder modulo p * M that is a multiple of p below p * M, so p - 1 more still fits. */
  lemma RemainderRoom(x: nat, p: nat, t: nat, M: nat)
    requires p >= 1 && M >= 1 && t == p * M && x % p == 0
    ensures x % t + p <= t
  {
    var K, q, r := x / p, x / t, x % t;
    assert x == K * p by {
      DivMod(x, p);
    }
    assert x == q * t + r && 0 <= r < t by {
      DivMod(x, t);
    }
    var L := K - q * M;
    assert r == L * p by {
      MulAssoc(q, M, p);
      MulSubLeft(K, q * M, p);
    }
    assert L <= M - 1 by {
      MulLessCancel(L, M, p);
    }
    assert L * p <= (M - 1) * p by {
      MulMonotone(L, M - 1, p);
    }
    MulSubLeft(M, 1, p);
  }

  /** x has its low s bits clear and the field starts at bit j < s: the shifted values. */
  lemma LowPartFilled(x: nat, p: nat, t: nat, M: nat) returns (u: int)
    requires t >= 1 && M >= 1 && p == t * M && x % p == 0
    ensures x / t == u && (x + p - 1) / t == u + M - 1
    ensures exists K: nat :: u == K * M
  {
    var K: nat := x / p;
    u := K * M;
    assert x == u * t by {
      MulAssoc(K, M, t);
    }
    MulNonNegative(K, M);
    DivUnique(x, t, u, 0);
    assert x + p - 1 == (u + M - 1) * t + (t - 1) by {
      MulSubLeft(u + M, 1, t);
      MulAddLeft(u, M, t);
    }
    DivUnique(x + p - 1, t, u + M - 1, t - 1);
  }

  /** A multiple of 256 has a zero low byte. */
  lemma FieldOfMultiple(u: int, M: nat, W: nat)
    requires M == 256 * W && exists K: nat :: u == K * M
    ensures u % 256 == 0 && u % 256 <= (u + M - 1) % 256
  {
    var K: nat :| u == K * M;
    assert u == (K * W) * 256 by {
      MulAssoc(K, W, 256);
    }
    DivUnique(u, 256, K * W, 0);
  }

  /** A multiple of M, with M dividing 256: adding M - 1 does not wrap the low byte. */
  lemma FieldNoWrap(u: int, M: nat, N: nat)
    requires M * N == 256 && M >= 1 && N >= 1 && exists K: nat :: u == K * M
    ensures u % 256 <= (u + M - 1) % 256
  {
    var K: nat :| u == K * M;
    var g, v := SplitMultiple(K, M, N);
    LowByte(u, g, v, M);
  }

  /** K * M, with M * N == 256: a multiple of 256 and a remainder that leaves room for M - 1 more. */
  lemma SplitMultiple(K: nat, M: nat, N: nat) returns (g: int, v: int)
    requires M * N == 256 && M >= 1 && N >= 1
    ensures K * M == g * 256 + v && 0 <= v <= 256 - M
  {
    var h := K % N;
    g, v := K / N, h * M;
    assert K * M == g * 256 + v by {
      DivMod(K, N);
      MulAddLeft(g * N, h, M);
      MulAssoc(g, N, M);
    }
    assert 0 <= v <= 256 - M by {
      MulMonotone(h, N - 1, M);
      MulSubLeft(N, 1, M);
      MulNonNegative(h, M);
    }
  }

  lemma LowByte(u: int, g: int, v: int, M: int)
    requires u == g * 256 + v && 0 <= v && 1 <= M && v + M <= 256
    ensures u % 256 == v && (u + M - 1) % 256 == v + M - 1
  {
    DivUnique(u, 256, g, v);
    DivUnique(u + M - 1, 256, g, v + M - 1);
  }

  lemma MulAssoc(a: int, b: int, c: int)
    ensures (a * b) * c == a * (b * c) && a * (b * c) == (a * c) * b
  {
  }

  lemma MulSubLeft(a: int, b: int, c: int)
    ensures (a - b) * c == a * c - b * c
  {
  }

  lemma MulAddLeft(a: int, b: int, c: int)
    ensures (a + b) * c == a * c + b * c
  {
  }

  lemma MulSucc(n: int, v: int)
    ensures (n + 1) * v == n * v + v
  {
  }

  lemma MulAddRight(a: int, b: int, c: int)
    ensures a * (b + c) == a * b + a * c
  {
  }

  /** A 32-bit value with its low s bits clear keeps within 32 bits when they are set. */
  lemma SetLowBitsFits(x: nat, s: nat)
    requires x < Word && s <= 32 && x % Pow2(s) == 0
    ensures x + Pow2(s) - 1 < Word
  {
    Pow2Of32();
    HighPartKept(x, s, 32);
    DivUnique(x, Word, 0, x);
  }

  /** Reducing before adding a constant does not change the remainder. */
  lemma ModAddMod(z: int, c: int, m: int)
    requires m > 0
    ensures (z % m + c) % m == (z + c) % m
  {
    ModShift(z + c, -(z / m), m);
  }

  /** Reducing before doubling does not change the remainder. */
  lemma ModDoubleMod(z: int, m: int)
    requires m > 0
    ensures (z % m * 2) % m == (z * 2) % m
  {
    assert z % m * 2 == z * 2 + (-(z / m) * 2) * m;
    ModShift(z * 2, -(z / m) * 2, m);
  }

  /** A value whose low s bits are clear, with s < 32: shifting right then left by s gives it back. */
  lemma ShiftsKeep(x: int, s: nat)
    requires IsUInt32(x) && s < 32
    ensures ShiftLeft(ShiftRight(x, s), s) == x <==> x % Pow2(s) == 0
  {
    var p := Pow2(s);
    var y := x / p;
    var z := y * p;
    assert ShiftLeft(ShiftRight(x, s), s) == z % Word by {
      assert s % 32 == s;
    }
    assert z == x - x % p by {
      DivMod(x, p);
    }
    DivUnique(z, Word, 0, z);
  }

  lemma DivMod(x: int, d: int)
    requires d > 0
    ensures x == (x / d) * d + x % d && 0 <= x % d < d
  {
  }

  /** `(byte)(32 - prefix)` for a byte prefix: the difference, wrapped into [0, 256). */
  function PrefixShift(cidrBit: int): (shiftBits: nat)
    requires 0 <= cidrBit < 256
  {
    if cidrBit <= 32 then 32 - cidrBit else 288 - cidrBit
  }

  /** PrefixShift is the truncating cast to byte of 32 - prefix. */
  lemma PrefixShiftIsByteCast(cidrBit: int)
    requires 0 <= cidrBit < 256
    ensures PrefixShift(cidrBit) == (32 - cidrBit) % 256 && PrefixShift(cidrBit) < 256
  {
    if cidrBit > 32 {
      DivUnique(32 - cidrBit, 256, -1, 288 - cidrBit);
    }
  }

  /** k rounds of `x = (x << 1) + 1` on `uint`: k one bits shifted in from the right. */
  function FillOnes(x: int, k: nat): (r: int)
    requires IsUInt32(x)
    ensures IsUInt32(r)
  {
    if k == 0 then x else AddWrap(ShiftLeft(FillOnes(x, k - 1), 1), 1)
  }

  /** The fill loop leaves the shifted value with k one bits appended, cut to 32 bits. */
  lemma {:induction false} FillOnesValue(x: int, k: nat)
    requires IsUInt32(x)
    ensures FillOnes(x, k) == (x * Pow2(k) + Pow2(k) - 1) % Word
  {
    if k == 0 {
      DivUnique(x, Word, 0, x);
    } else {
      FillOnesValue(x, k - 1);
      var p := Pow2(k - 1);
      FillStep(FillOnes(x, k - 1), x * p + p - 1);
      assert (x * p + p - 1) * 2 + 1 == x * Pow2(k) + Pow2(k) - 1 by {
        MulTwice(x, p, Pow2(k));
      }
    }
  }

  /** One round of `x = (x << 1) + 1` on the reduced value. */
  lemma FillStep(f: int, a: int)
    requires IsUInt32(f) && f == a % Word
    ensures AddWrap(ShiftLeft(f, 1), 1) == (a * 2 + 1) % Word
  {
    assert ShiftLeft(f, 1) == (f * 2) % Word by {
      assert Pow2(1) == 2;
    }
    ModDoubleMod(a, Word);
    ModAddMod(a * 2, 1, Word);
  }

  lemma MulTwice(x: int, p: int, q: int)
    requires q == 2 * p
    ensures (x * p + p - 1) * 2 + 1 == x * q + q - 1
  {
    MulAssoc(x, p, 2);
  }

  /**
   * When the subnet check passes, ip2 is the address with its low shiftBits
   * bits set; a shift of 32 or more (a prefix of 0, or above 32) fills all
   * 32 bits.
   */
  lemma FillShifted(ip: int, sb: nat)
    requires IsUInt32(ip) && ShiftLeft(ShiftRight(ip, sb), sb) == ip
    ensures FillOnes(ShiftRight(ip, sb), sb) == BlockEnd(ip, sb)
  {
    if sb < 32 {
      ShiftsKeep(ip, sb);
      FillBelow(ip, sb);
    } else {
      FillAll(ShiftRight(ip, sb), sb);
    }
  }

  lemma FillBelow(ip: int, sb: nat)
    requires IsUInt32(ip) && sb < 32 && ip % Pow2(sb) == 0
    ensures FillOnes(ShiftRight(ip, sb), sb) == ip + Pow2(sb) - 1
  {
    var p := Pow2(sb);
    var y := ShiftRight(ip, sb);
    assert y * p == ip by {
      assert sb % 32 == sb;
      DivMod(ip, p);
    }
    assert FillOnes(y, sb) == (y * p + p - 1) % Word by {
      FillOnesValue(y, sb);
    }
    assert (ip + p - 1) % Word == ip + p - 1 by {
      SetLowBitsFits(ip, sb);
      DivUnique(ip + p - 1, Word, 0, ip + p - 1);
    }
  }

  /** 32 or more rounds of the fill loop leave only one bits. */
  lemma FillAll(y: int, sb: nat)
    requires IsUInt32(y) && sb >= 32
    ensures FillOnes(y, sb) == Word - 1
  {
    FillOnesValue(y, sb);
    var q := Pow2(sb - 32);
    assert Pow2(sb) == q * Word by {
      Pow2Add(32, sb - 32);
      Pow2Of32();
    }
    AllOnesMod(y, q, Pow2(sb));
  }

  lemma AllOnesMod(y: nat, q: nat, p: int)
    requires q >= 1 && p == q * Word
    ensures (y * p + p - 1) % Word == Word - 1
  {
    assert y * p + p - 1 == (y * q + q - 1) * Word + (Word - 1) by {
      MulAssoc(y, q, Word);
      MulAddLeft(y * q, q, Word);
      MulSubLeft(y * q + q, 1, Word);
    }
    MulNonNegative(y, q);
    DivUnique(y * p + p - 1, Word, y * q + q - 1, Word - 1);
  }

  /** Octet i of a 32-bit value, octet 0 most significant: `(byte)((x >> (3 - i) * 8) & 255)`. */
  function OctetOf(x: int, i: nat): Octet
    requires IsUInt32(x) && i < 4
  {
    ShiftRight(x, (3 - i) * 8) % 256
  }

  function Unpack(x: int): (bytes: seq<Octet>)
    requires IsUInt32(x)
    ensures |bytes| == 4
  {
    [OctetOf(x, 0), OctetOf(x, 1), OctetOf(x, 2), OctetOf(x, 3)]
  }

  /** Four bytes that are the octets of x, most significant first, are Unpack(x). */
  lemma UnpackOf(x: int, bytes: seq<Octet>)
    requires IsUInt32(x) && |bytes| == 4
    requires forall j :: 0 <= j < 4 ==> bytes[j] == OctetOf(x, j)
    ensures bytes == Unpack(x)
  {
  }

  /** The last address of the block: the low sb bits set, all 32 of them for a shift of 32 or more. */
  function BlockEnd(ip: int, sb: nat): (x: int)
    requires IsUInt32(ip)
    ensures IsUInt32(x)
  {
    if sb < 32 && ip % Pow2(sb) == 0 then
      SetLowBitsFits(ip, sb);
      ip + Pow2(sb) - 1
    else if sb < 32 then ip
    else Word - 1
  }

  /** The subnet check `(ip >> s) << s == ip` holds exactly when the low (s mod 32) bits are clear. */
  lemma SubnetCheck(ip: int, sb: nat)
    requires IsUInt32(ip)
    ensures ShiftLeft(ShiftRight(ip, sb), sb) == ip <==> ip % Pow2(sb % 32) == 0
  {
    var s := sb % 32;
    assert s % 32 == s;
    assert ShiftLeft(ShiftRight(ip, sb), sb) == ShiftLeft(ShiftRight(ip, s), s);
    ShiftsKeep(ip, s);
  }

  /** Each octet of the block's last address is at least that of its first. */
  lemma BlockOrdered(ip: int, sb: nat)
    requires IsUInt32(ip) && ip % Pow2(sb % 32) == 0
    ensures forall i :: 0 <= i < 4 ==> OctetOf(ip, i) <= OctetOf(BlockEnd(ip, sb), i)
  {
    forall i | 0 <= i < 4
      ensures OctetOf(ip, i) <= OctetOf(BlockEnd(ip, sb), i)
    {
      if sb < 32 {
        assert sb % 32 == sb;
        OctetGrows(ip, sb, i);
      } else {
        assert BlockEnd(ip, sb) == Word - 1;
        assert OctetOf(Word - 1, i) == 255 by {
          AllOnes(i);
        }
      }
    }
  }

  lemma OctetGrows(ip: int, sb: nat, i: nat)
    requires IsUInt32(ip) && sb < 32 && ip % Pow2(sb) == 0 && i < 4
    ensures OctetOf(ip, i) <= OctetOf(BlockEnd(ip, sb), i)
  {
    var e := ip + Pow2(sb) - 1;
    assert BlockEnd(ip, sb) == e;
    var j := (3 - i) * 8;
    assert OctetOf(ip, i) == (ip / Pow2(j)) % 256 && OctetOf(e, i) == (e / Pow2(j)) % 256 by {
      assert j % 32 == j;
    }
    FieldGrows(ip, sb, j);
  }

  lemma AllOnes(i: nat)
    requires i < 4
    ensures OctetOf(Word - 1, i) == 255
  {
    assert Pow2(8) == 0x100;
    assert Pow2(16) == 0x1_0000 by {
      Pow2Add(8, 8);
    }
    assert Pow2(24) == 0x100_0000 by {
      Pow2Add(16, 8);
    }
    if i == 0 {
      assert OctetOf(Word - 1, i) == ((Word - 1) / 0x100_0000) % 256;
    } else if i == 1 {
      assert OctetOf(Word - 1, i) == ((Word - 1) / 0x1_0000) % 256;
    } else if i == 2 {
      assert OctetOf(Word - 1, i) == ((Word - 1) / 0x100) % 256;
    } else {
      assert OctetOf(Word - 1, i) == (Word - 1) % 256;
    }
  }

  /** The 32-bit value of the address a.b.c.d, a most significant. */
  function Address32(a: Octet, b: Octet, c: Octet, d: Octet): (x: int)
    ensures IsUInt32(x)
  {
    a * 0x100_0000 + b * 0x1_0000 + c * 0x100 + d
  }

  /** One round of `ip <<= 8; ip += v` while ip holds at most three bytes. */
  lemma PackStep(x: int, v: Octet)
    requires 0 <= x < 0x100_0000
    ensures AddWrap(ShiftLeft(x, 8), v) == x * 0x100 + v
  {
    assert Pow2(8) == 0x100;
    Pow2Mod32(8);
    DivUnique(x * 0x100, Word, 0, x * 0x100);
  }

  /** Octet i of x is the low byte of x divided by 2^((3 - i) * 8). */
  lemma OctetIs(x: int, i: nat, p: nat)
    requires IsUInt32(x) && i < 4 && p == Pow2((3 - i) * 8)
    ensures OctetOf(x, i) == x / p % 256
  {
    assert ((3 - i) * 8) % 32 == (3 - i) * 8;
  }

  /** The four octets of a 32-bit value as divisions by constant powers of 256. */
  lemma OctetValues(x: int)
    requires IsUInt32(x)
    ensures OctetOf(x, 0) == x / 0x100_0000 % 256 && OctetOf(x, 1) == x / 0x1_0000 % 256
    ensures OctetOf(x, 2) == x / 0x100 % 256 && OctetOf(x, 3) == x / 1 % 256
  {
    SmallPowers();
    OctetIs(x, 0, 0x100_0000);
    OctetIs(x, 1, 0x1_0000);
    OctetIs(x, 2, 0x100);
    OctetIs(x, 3, 1);
  }

  /** A value made of a high part, a byte and a low part below p: dividing by p and taking the low byte gives the byte. */
  lemma ByteOf(x: int, hi: int, lo: int, p: nat, b: Octet)
    requires p >= 1 && 0 <= lo < p && x == (hi * 256 + b) * p + lo
    ensures x / p % 256 == b
  {
    DivUnique(x, p, hi * 256 + b, lo);
    DivUnique(hi * 256 + b, 256, hi, b);
  }

  /** Unpacking the value of an address gives its octets back. */
  lemma UnpackAddress(a: Octet, b: Octet, c: Octet, d: Octet)
    ensures Unpack(Address32(a, b, c, d)) == [a, b, c, d]
  {
    var x := Address32(a, b, c, d);
    OctetValues(x);
    ByteOf(x, 0, b * 0x1_0000 + c * 0x100 + d, 0x100_0000, a);
    ByteOf(x, a, c * 0x100 + d, 0x1_0000, b);
    ByteOf(x, a * 0x100 + b, d, 0x100, c);
    ByteOf(x, a * 0x1_0000 + b * 0x100 + c, 0, 1, d);
  }

  /** The value of a sequence of bytes read big-endian. */
  function BigEndian(bytes: seq<Octet>): (x: nat)
    ensures x < Pow2(8 * |bytes|)
  {
    if bytes == [] then 0
    else
      var init := BigEndian(bytes[..|bytes| - 1]);
      assert Pow2(8 * |bytes|) == Pow2(8 * (|bytes| - 1)) * 0x100 by {
        Pow2Add(8 * (|bytes| - 1), 8);
        assert Pow2(8) == 0x100;
      }
      assert init * 0x100 + bytes[|bytes| - 1] < Pow2(8 * |bytes|) by {
        MulMonotone(init, Pow2(8 * (|bytes| - 1)) - 1, 0x100);
        MulSubLeft(Pow2(8 * (|bytes| - 1)), 1, 0x100);
      }
      init * 0x100 + bytes[|bytes| - 1]
  }

  lemma BigEndianAddress(a: Octet, b: Octet, c: Octet, d: Octet)
    ensures BigEndian([a, b, c, d]) == Address32(a, b, c, d)
  {
    assert BigEndian([a]) == a by {
      assert [a][..0] == [];
    }
    assert BigEndian([a, b]) == a * 0x100 + b by {
      assert [a, b][..1] == [a];
    }
    assert BigEndian([a, b, c]) == a * 0x1_0000 + b * 0x100 + c by {
      assert [a, b, c][..2] == [a, b];
    }
    assert [a, b, c, d][..3] == [a, b, c];
  }

  lemma Pow24()
    ensures Pow2(24) == 0x100_0000
  {
    assert Pow2(8) == 0x100;
    Pow2Add(8, 8);
    Pow2Add(16, 8);
  }

  lemma SmallPowers()
    ensures Pow2(8) == 0x100 && Pow2(16) == 0x1_0000 && Pow2(24) == 0x100_0000
  {
    Pow24();
    Pow2Add(8, 8);
  }

  /** The shift (byte)(32 - prefix) for the two prefixes the validator admits, and its power of two. */
  function HostMask(prefix: nat): (m: nat)
    requires prefix == 16 || prefix == 24
    ensures m == Pow2(32 - prefix)
  {
    SmallPowers();
    if prefix == 16 then 0x1_0000 else 0x100
  }

  /** A shift count below 32 is its own low five bits. */
  lemma Pow2Mod32(n: nat)
    requires n < 32
    ensures Pow2(n % 32) == Pow2(n)
  {
    assert n % 32 == n;
  }

  /** A multiple of p leaves no remainder. */
  lemma MultipleOf(x: int, q: int, p: nat)
    requires p >= 1 && x == q * p
    ensures x % p == 0
  {
    DivUnique(x, p, q, 0);
  }

  /** a.b.c.0 is a /24 block whose last address is a.b.c.255. */
  lemma Block24(a: Octet, b: Octet, c: Octet)
    ensures Address32(a, b, c, 0) % Pow2(8 % 32) == 0
    ensures BlockEnd(Address32(a, b, c, 0), 8) == Address32(a, b, c, 255)
  {
    var x := Address32(a, b, c, 0);
    SmallPowers();
    Pow2Mod32(8);
    MultipleOf(x, a * 0x1_0000 + b * 0x100 + c, 0x100);
  }

  /** a.b.0.0 is a /16 block whose last address is a.b.255.255. */
  lemma Block16(a: Octet, b: Octet)
    ensures Address32(a, b, 0, 0) % Pow2(16 % 32) == 0
    ensures BlockEnd(Address32(a, b, 0, 0), 16) == Address32(a, b, 255, 255)
  {
    var x := Address32(a, b, 0, 0);
    SmallPowers();
    Pow2Mod32(16);
    MultipleOf(x, a * 0x100 + b, 0x1_0000);
  }

  /** An unchecked int product whose true value is a count from 0 to 2^32 is negative exactly on [2^31, 2^32). */
  lemma Wrap32Sign(v: int)
    requires 0 <= v <= Word
    ensures Wrap32(v) >= 0 <==> v < Half || v == Word
  {
    if v < Half {
    } else if v < Word {
      DivUnique(v + Half, Word, 1, v - Half);
    } else {
      DivUnique(v + Half, Word, 1, Half);
    }
  }
}
