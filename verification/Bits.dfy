/** Bits of natural numbers: the unsigned words that instructions are made of. */
module Bits {

  // Bit `i` of a word.
  function Bit(x: nat, i: nat): nat
    decreases i
  {
    if i == 0 then x % 2 else Bit(x / 2, i - 1)
  }

  // The bitwise conjunction of two words.
  function And(x: nat, y: nat): nat {
    if x == 0 || y == 0 then 0 else 2 * And(x / 2, y / 2) + if x % 2 == 1 && y % 2 == 1 then 1 else 0
  }

  // The bitwise disjunction of two words.
  function Or(x: nat, y: nat): nat {
    if x == 0 then y else if y == 0 then x
    else 2 * Or(x / 2, y / 2) + if x % 2 == 1 || y % 2 == 1 then 1 else 0
  }

  function ShiftRight(x: nat, k: nat): nat
    decreases k
  {
    if k == 0 then x else ShiftRight(x / 2, k - 1)
  }

  function ShiftLeft(x: nat, k: nat): nat
    decreases k
  {
    if k == 0 then x else ShiftLeft(2 * x, k - 1)
  }

  lemma {:induction false} BitOfAnd(x: nat, y: nat, i: nat)
    ensures Bit(And(x, y), i) == Bit(x, i) * Bit(y, i)
    decreases i
  {
    if x == 0 || y == 0 {
      BitOfZero(i);
    } else {
      assert And(x, y) / 2 == And(x / 2, y / 2);
      BitProduct(x % 2, y % 2);
      if i > 0 { BitOfAnd(x / 2, y / 2, i - 1); }
    }
  }

  lemma {:induction false} BitOfOr(x: nat, y: nat, i: nat)
    ensures Bit(Or(x, y), i) == 1 <==> Bit(x, i) == 1 || Bit(y, i) == 1
    decreases i
  {
    OrStep(x / 2, y / 2, x % 2, y % 2);
    if i > 0 { BitOfOr(x / 2, y / 2, i - 1); }
  }

  lemma {:induction false} BitOfZero(i: nat)
    ensures Bit(0, i) == 0
  {
    if i > 0 { BitOfZero(i - 1); }
  }

  lemma AndEven(x: nat, y: nat)
    ensures And(x, 2 * y) == 2 * And(x / 2, y)
  {
    AndPair(x / 2, y, x % 2, 0);
  }

  lemma {:induction false} ShiftOneMore(x: nat, k: nat)
    ensures ShiftRight(x, k) / 2 == ShiftRight(x, k + 1)
    decreases k
  {
    if k > 0 { ShiftOneMore(x / 2, k - 1); }
  }

  // A mask without low bits only looks at the high bits.
  lemma {:induction false} AndHigh(x: nat, k: nat, m: nat)
    ensures And(x, ShiftLeft(m, k)) == ShiftLeft(And(ShiftRight(x, k), m), k)
    decreases k
  {
    if k > 0 {
      AndHigh(x, k - 1, 2 * m);
      AndEven(ShiftRight(x, k - 1), m);
      ShiftOneMore(x, k - 1);
    }
  }

  lemma ShiftByFour(x: nat, k: nat)
    ensures ShiftRight(x, k + 4) == ShiftRight(x / 16, k)
    ensures ShiftLeft(x, k + 4) == ShiftLeft(16 * x, k)
  {
    assert ShiftRight(x, k + 4) == ShiftRight(x / 2, k + 3) == ShiftRight(x / 4, k + 2);
    assert ShiftRight(x / 4, k + 2) == ShiftRight(x / 8, k + 1) == ShiftRight(x / 16, k);
    assert ShiftLeft(x, k + 4) == ShiftLeft(2 * x, k + 3) == ShiftLeft(4 * x, k + 2);
    assert ShiftLeft(4 * x, k + 2) == ShiftLeft(8 * x, k + 1) == ShiftLeft(16 * x, k);
  }

  lemma ShiftByEight(x: nat, k: nat)
    ensures ShiftRight(x, k + 8) == ShiftRight(x / 256, k)
    ensures ShiftLeft(x, k + 8) == ShiftLeft(256 * x, k)
  {
    ShiftByFour(x, k + 4);
    ShiftByFour(x / 16, k);
    ShiftByFour(16 * x, k);
  }

  lemma ShiftByTwentyFour(x: nat, k: nat)
    ensures ShiftRight(x, k + 24) == ShiftRight(x / 0x100_0000, k)
    ensures ShiftLeft(x, k + 24) == ShiftLeft(0x100_0000 * x, k)
  {
    ShiftByEight(x, k + 16);
    ShiftByEight(x / 0x100, k + 8);
    ShiftByEight(x / 0x1_0000, k);
    ShiftByEight(0x100 * x, k + 8);
    ShiftByEight(0x1_0000 * x, k);
  }

  // A mask of bits `24 + k` and up depends on those bits only.
  lemma HighMask(x: nat, y: nat, k: nat, m: nat)
    requires ShiftRight(x / 0x100_0000, k) == ShiftRight(y / 0x100_0000, k)
    ensures And(x, ShiftLeft(0x100_0000 * m, k)) == And(y, ShiftLeft(0x100_0000 * m, k))
  {
    AndHigh(x, k + 24, m);
    AndHigh(y, k + 24, m);
    ShiftByTwentyFour(x, k);
    ShiftByTwentyFour(y, k);
    ShiftByTwentyFour(m, k);
  }

  // The same for a single word.
  lemma AndTop(x: nat, m: nat)
    ensures And(x, 0x100_0000 * m) == 0x100_0000 * And(x / 0x100_0000, m)
  {
    AndTopBy(x, m, 0);
  }

  lemma AndTopBy(x: nat, m: nat, k: nat)
    requires k == 0
    ensures And(x, 0x100_0000 * m) == 0x100_0000 * And(x / 0x100_0000, m)
  {
    AndHigh(x, k + 24, m);
    ShiftByTwentyFour(x, k);
    ShiftByTwentyFour(m, k);
    ShiftByTwentyFour(And(x / 0x100_0000, m), k);
  }

  lemma BitByFour(x: nat, k: nat)
    ensures Bit(x, k + 4) == Bit(x / 16, k)
  {
    assert Bit(x, k + 4) == Bit(x / 2, k + 3) == Bit(x / 4, k + 2);
    assert Bit(x / 4, k + 2) == Bit(x / 8, k + 1) == Bit(x / 16, k);
  }

  lemma BitByTwelve(x: nat, k: nat)
    ensures Bit(x, k + 12) == Bit(x / 0x1000, k)
  {
    BitByFour(x, k + 8);
    BitByFour(x / 0x10, k + 4);
    BitByFour(x / 0x100, k);
  }

  lemma BitByTwentyFour(x: nat, k: nat)
    ensures Bit(x, k + 24) == Bit(x / 0x100_0000, k)
  {
    BitByTwelve(x, k + 12);
    BitByTwelve(x / 0x1000, k);
  }

  lemma BitByTwentyEight(x: nat, k: nat)
    ensures Bit(x, k + 28) == Bit(x / 0x1000_0000, k)
  {
    BitByTwentyFour(x, k + 4);
    BitByFour(x / 0x100_0000, k);
  }

  lemma Bit2(x: nat)
    ensures Bit(x, 2) == x / 4 % 2
  {
    assert x / 2 / 2 == x / 4;
  }

  lemma Bit3(x: nat)
    ensures Bit(x, 3) == x / 8 % 2
  {
    Bit2(x / 2);
    assert x / 2 / 4 == x / 8;
  }

  lemma Bit4(x: nat)
    ensures Bit(x, 4) == x / 16 % 2
  {
    Bit3(x / 2);
    assert x / 2 / 8 == x / 16;
  }

  lemma Bit26(x: nat)
    ensures Bit(x, 26) == x / 0x400_0000 % 2
  {
    BitByTwentyFour(x, 2);
    Bit2(x / 0x100_0000);
  }

  lemma Bit27(x: nat)
    ensures Bit(x, 27) == x / 0x800_0000 % 2
  {
    BitByTwentyFour(x, 3);
    Bit3(x / 0x100_0000);
  }

  lemma Bit28(x: nat)
    ensures Bit(x, 28) == x / 0x1000_0000 % 2
  {
    BitByTwentyFour(x, 4);
    Bit4(x / 0x100_0000);
  }

  lemma Bit30(x: nat)
    ensures Bit(x, 30) == x / 0x4000_0000 % 2
  {
    BitByTwentyEight(x, 2);
    Bit2(x / 0x1000_0000);
  }

  lemma Bit31(x: nat)
    ensures Bit(x, 31) == x / 0x8000_0000 % 2
  {
    BitByTwentyEight(x, 3);
    Bit3(x / 0x1000_0000);
  }

  function Pow2(n: nat): (p: nat)
    ensures p > 0
  {
    if n == 0 then 1 else 2 * Pow2(n - 1)
  }

  lemma PowByFour(n: nat)
    ensures Pow2(n + 4) == 16 * Pow2(n)
  {
    assert Pow2(n + 4) == 2 * Pow2(n + 3) == 4 * Pow2(n + 2);
    assert Pow2(n + 2) == 2 * Pow2(n + 1) == 4 * Pow2(n);
  }

  lemma PowByTwelve(n: nat)
    ensures Pow2(n + 12) == 0x1000 * Pow2(n)
  {
    PowByFour(n);
    PowByFour(n + 4);
    PowByFour(n + 8);
  }

  // The sizes of the fields of branches, and of words.
  lemma Powers()
    ensures Pow2(14) == 0x4000 && Pow2(19) == 0x8_0000 && Pow2(26) == 0x400_0000 && Pow2(32) == 0x1_0000_0000
  {
    assert Pow2(2) == 4 && Pow2(3) == 8;
    PowByTwelve(2);
    PowByFour(3);
    PowByTwelve(7);
    PowByTwelve(14);
    PowByFour(4);
    PowByTwelve(8);
    PowByTwelve(20);
  }

  lemma BitProduct(b: nat, c: nat)
    requires b < 2 && c < 2
    ensures b * c == if b == 1 && c == 1 then 1 else 0
  {
  }

  lemma OrStep(x: nat, y: nat, b: nat, c: nat)
    requires b < 2 && c < 2
    ensures Or(2 * x + b, 2 * y + c) == 2 * Or(x, y) + if b == 1 || c == 1 then 1 else 0
  {
    assert (2 * x + b) / 2 == x && (2 * y + c) / 2 == y;
  }

  // A mask of low bits keeps the remainder.
  lemma {:induction false} LowMask(x: nat, n: nat)
    ensures And(x, Pow2(n) - 1) == x % Pow2(n)
    decreases n
  {
    if n > 0 {
      var p := Pow2(n - 1);
      LowMask(x / 2, n - 1);
      AndPair(x / 2, p - 1, x % 2, 1);
      assert 2 * p - 1 == 2 * (p - 1) + 1;
      HalfRemainder(x, p);
    }
  }

  lemma HalfRemainder(x: nat, p: nat)
    requires p > 0
    ensures x % (2 * p) == 2 * (x / 2 % p) + x % 2
  {
    var q, r := x / 2 / p, x / 2 % p;
    assert x == q * (2 * p) + (2 * r + x % 2);
    RemainderIs(x, 2 * p, q, 2 * r + x % 2);
  }

  lemma MultipleFar(k: int, n: nat)
    requires k != 0
    ensures k * n >= n || k * n + n <= 0
  {
    if k > 0 {
      assert (k - 1) * n >= 0;
    } else {
      assert (-k - 1) * n >= 0;
    }
  }

  lemma RemainderIs(x: int, n: nat, q: int, r: nat)
    requires r < n && x == q * n + r
    ensures x % n == r && x / n == q
  {
    assert (x / n - q) * n == r - x % n;
    if x / n != q {
      MultipleFar(x / n - q, n);
    }
  }

  lemma AndPair(x: nat, y: nat, b: nat, c: nat)
    requires b < 2 && c < 2
    ensures And(2 * x + b, 2 * y + c) == 2 * And(x, y) + if b == 1 && c == 1 then 1 else 0
  {
    assert (2 * x + b) / 2 == x && (2 * y + c) / 2 == y;
  }

  // The disjunction of words without a common bit is their sum.
  lemma {:induction false} OrDisjoint(x: nat, y: nat)
    requires And(x, y) == 0
    ensures Or(x, y) == x + y
  {
    if x != 0 && y != 0 {
      AndPair(x / 2, y / 2, x % 2, y % 2);
      OrDisjoint(x / 2, y / 2);
      OrStep(x / 2, y / 2, x % 2, y % 2);
    }
  }

  lemma HalfMask(p: nat, mask: nat)
    requires mask < 2 * p
    ensures mask / 2 < p && 2 * p - 1 - mask == 2 * (p - 1 - mask / 2) + (1 - mask % 2)
  {
  }

  // A mask and its complement divide a word of `n` bits.
  lemma {:induction false} Complement(n: nat, x: nat, mask: nat)
    requires x < Pow2(n) && mask < Pow2(n)
    ensures And(x, mask) + And(x, Pow2(n) - 1 - mask) == x
    decreases n
  {
    if n > 0 {
      HalfMask(Pow2(n - 1), mask);
      Complement(n - 1, x / 2, mask / 2);
      ComplementPair(x / 2, mask / 2, Pow2(n - 1) - 1 - mask / 2, x % 2, mask % 2);
    }
  }

  lemma ComplementPair(x: nat, mask: nat, rest: nat, b: nat, m: nat)
    requires And(x, mask) + And(x, rest) == x && b < 2 && m < 2
    ensures And(2 * x + b, 2 * mask + m) + And(2 * x + b, 2 * rest + (1 - m)) == 2 * x + b
  {
    AndPair(x, mask, b, m);
    AndPair(x, rest, b, 1 - m);
  }

  lemma {:induction false} NoCommonBit(n: nat, x: nat, y: nat, mask: nat)
    requires mask < Pow2(n)
    ensures And(And(x, Pow2(n) - 1 - mask), And(y, mask)) == 0
    decreases n
  {
    if n > 0 {
      HalfMask(Pow2(n - 1), mask);
      NoCommonBit(n - 1, x / 2, y / 2, mask / 2);
      NoCommonPair(x / 2, y / 2, mask / 2, Pow2(n - 1) - 1 - mask / 2, x % 2, y % 2, mask % 2);
    }
  }

  lemma NoCommonPair(x: nat, y: nat, mask: nat, rest: nat, b: nat, c: nat, m: nat)
    requires And(And(x, rest), And(y, mask)) == 0 && b < 2 && c < 2 && m < 2
    ensures And(And(2 * x + b, 2 * rest + (1 - m)), And(2 * y + c, 2 * mask + m)) == 0
  {
    AndPair(x, rest, b, 1 - m);
    AndPair(y, mask, c, m);
    AndPair(And(x, rest), And(y, mask), if b == 1 && m == 0 then 1 else 0, if c == 1 && m == 1 then 1 else 0);
  }

  // Taking the bits of a mask from `y` and the others from `x` is a subtraction and an addition.
  lemma Merged(n: nat, x: nat, y: nat, mask: nat)
    requires x < Pow2(n) && mask < Pow2(n)
    ensures Or(And(x, Pow2(n) - 1 - mask), And(y, mask)) == x - And(x, mask) + And(y, mask)
  {
    NoCommonBit(n, x, y, mask);
    OrDisjoint(And(x, Pow2(n) - 1 - mask), And(y, mask));
    Complement(n, x, mask);
  }

  lemma {:induction false} ShiftedDouble(x: nat, k: nat)
    ensures ShiftLeft(2 * x, k) == 2 * ShiftLeft(x, k)
    decreases k
  {
    if k > 0 { ShiftedDouble(2 * x, k - 1); }
  }

  lemma {:induction false} BitOfOne(p: nat, i: nat)
    ensures Bit(ShiftLeft(1, p), i) == 1 <==> i == p
    decreases p
  {
    if p > 0 {
      ShiftedDouble(1, p - 1);
      if i > 0 { BitOfOne(p - 1, i - 1); }
    } else if i > 0 {
      BitOfZero(i - 1);
    }
  }

  // The bitwise exclusive disjunction of two words.
  function Xor(x: nat, y: nat): nat {
    if x == 0 then y else if y == 0 then x else 2 * Xor(x / 2, y / 2) + if x % 2 != y % 2 then 1 else 0
  }

  lemma {:induction false} BitOfXor(x: nat, y: nat, i: nat)
    ensures Bit(Xor(x, y), i) == 1 <==> Bit(x, i) != Bit(y, i)
    ensures Bit(x, i) < 2 && Bit(y, i) < 2
    decreases i
  {
    BitOfZero(i);
    if i > 0 {
      assert x != 0 && y != 0 ==> Xor(x, y) / 2 == Xor(x / 2, y / 2);
      BitOfXor(x / 2, y / 2, i - 1);
    }
  }

  lemma {:induction false} XorFits(x: nat, y: nat, n: nat)
    requires x < Pow2(n) && y < Pow2(n)
    ensures Xor(x, y) < Pow2(n)
    decreases n
  {
    if n > 0 { XorFits(x / 2, y / 2, n - 1); }
  }

  lemma {:induction false} OneFits(p: nat, n: nat)
    requires p < n
    ensures ShiftLeft(1, p) < Pow2(n)
    decreases p
  {
    if p > 0 {
      ShiftedDouble(1, p - 1);
      OneFits(p - 1, n - 1);
    } else {
      assert Pow2(n) == 2 * Pow2(n - 1);
    }
  }
}
