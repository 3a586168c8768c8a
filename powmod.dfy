/** The modular exponentiation routine `g_pow_x_mod_G` of avvote.py, which forms
    the round-one public value g^x mod G, and a corrected version of it. */
module PowMod {
  import opened Arith
  import opened Binary

  /** The group modulus: the 1024-bit prime of the Second Oakley Group
      (section 6.2 of RFC 2409). */
  const Modulus: int := 0xFFFFFFFFFFFFFFFFC90FDAA22168C234C4C6628B80DC1CD129024E088A67CC74020BBEA63B139B22514A08798E3404DDEF9519B3CD3A431B302B0A6DF25F14374FE1356D6D51C245E485B576625E7EC6F44C42E9A637ED6B0BFF5CB6F406B7EDEE386BFB5A899FA5AE9F24117C4B1FE649286651ECE65381FFFFFFFFFFFFFFFF

  /** The group generator. */
  const Generator: int := 2

  /** The exponent that the routine's accumulator stands for. Starting from
      exponent e with x still to consume, each round while x > 1 doubles the
      exponent (the squaring) and adds the low bit of x (the extra multiply),
      then shifts x right. */
  ghost function ComputedExp(e: nat, x: nat): nat
    decreases x
  {
    if x <= 1 then e else ComputedExp(2 * e + x % 2, x / 2)
  }

  /** The bits of x below its leading 1, least significant first. */
  ghost function LowBits(x: nat): (s: seq<bool>)
    requires x >= 1
    ensures Bits(x) == s + [true]
  {
    Bits(x)[..|Bits(x)| - 1]
  }

  /** `g_pow_x_mod_G(g, x, G)`: returns 1 for x == 0, returns g itself
      (unreduced) when the loop never runs (x == 1, or x negative), and
      otherwise g raised to ComputedExp(1, x), reduced mod G. `steps` counts
      the loop iterations: one fewer than the bit length of x. */
  method GPowXModG(g: int, x: int, G: int) returns (r: int, ghost steps: nat)
    requires G > 0
    ensures x == 0 ==> r == 1
    ensures x != 0 && x <= 1 ==> r == g
    ensures x >= 2 ==> r == Pow(g, ComputedExp(1, x)) % G
    ensures x >= 2 ==> 0 <= r < G
    ensures steps == if x >= 1 then |Bits(x)| - 1 else 0
  {
    var g0 := g;
    steps := 0;
    if x == 0 {
      return 1, 0;
    }
    var cur := g;
    var y := x;
    ghost var e: nat := 1;
    while y > 1
      invariant x <= 1 ==> y == x && steps == 0
      invariant x >= 1 ==> 1 <= y && ComputedExp(e, y) == ComputedExp(1, x)
      invariant x >= 1 ==> steps + |Bits(y)| == |Bits(x)|
      invariant steps == 0 ==> cur == g0 && e == 1
      invariant steps > 0 ==> 0 <= cur < G && cur % G == Pow(g0, e) % G
      decreases y
    {
      if steps == 0 {
        PowOne(g0);
      }
      SquareMultiplyStep(cur, g0, e, G);
      ComputedExpStep(e, y);
      BitsHalve(y);
      ghost var e' := 2 * e + y % 2;
      ghost var c := cur;
      cur := cur * cur;
      if y % 2 == 1 {
        cur := cur * g0;
        assert cur == c * c * g0;
      } else {
        assert cur == c * c;
      }
      assert cur % G == Pow(g0, e') % G;
      ModMod(cur, G);
      y := y / 2;
      cur := cur % G;
      e := e';
      steps := steps + 1;
    }
    r := cur;
    if x >= 2 {
      BitsHalve(x);
      assert Bits(1) == [true] + Bits(0);
      ModOfReduced(cur, G);
    }
  }

  /** The evidently intended routine: g^x mod G, by right-to-left
      square-and-multiply over the same low-bit-first scan of x. */
  method ModExp(g: int, x: nat, G: int) returns (r: int)
    requires G > 0
    ensures r == Pow(g, x) % G
    ensures 0 <= r < G
  {
    r := 1 % G;
    var b := g % G;
    var y := x;
    PowCongruent(g % G, g, x, G);
    ModMulLeft(1, Pow(b, y), G);
    while y > 0
      invariant 0 <= r < G
      invariant (r * Pow(b, y)) % G == Pow(g, x) % G
      decreases y
    {
      RightToLeftStep(r, b, y, G);
      if y % 2 == 1 {
        r := (r * b) % G;
      }
      b := (b * b) % G;
      y := y / 2;
    }
    assert r * Pow(b, 0) == r;
    ModOfReduced(r, G);
  }

  /** One round of the corrected loop keeps r * b^y congruent mod G. */
  lemma RightToLeftStep(r: int, b: int, y: nat, G: int)
    requires G > 0 && y > 0
    ensures y % 2 == 1 ==>
      (r * Pow(b, y)) % G == (((r * b) % G) * Pow((b * b) % G, y / 2)) % G
    ensures y % 2 == 0 ==>
      (r * Pow(b, y)) % G == (r * Pow((b * b) % G, y / 2)) % G
  {
    var rest := Pow(b * b, y / 2);
    var rest' := Pow((b * b) % G, y / 2);
    PowSquare(b, y / 2);
    ModMod(b * b, G);
    PowCongruent((b * b) % G, b * b, y / 2, G);
    assert rest' % G == rest % G;
    if y % 2 == 1 {
      OddPowSplit(b, y);
      assert Pow(b, y) == b * rest;
      assert r * (b * rest) == (r * b) * rest;
      ModMod(r * b, G);
      MulCongruent((r * b) % G, r * b, rest', rest, G);
    } else {
      assert Pow(b, y) == rest;
      MulCongruent(r, r, rest', rest, G);
    }
  }

  /** An odd power splits off one factor: b^y == b * b^(2 * (y / 2)). */
  lemma OddPowSplit(b: int, y: nat)
    requires y % 2 == 1
    ensures Pow(b, y) == b * Pow(b, 2 * (y / 2))
  {
    PowAdd(b, 1, 2 * (y / 2));
    PowOne(b);
  }

  /** One round of the as-written loop: squaring a value congruent to g0^e
      gives g0^(2e), and the extra multiply gives g0^(2e + 1). */
  lemma SquareMultiplyStep(c: int, g0: int, e: nat, G: int)
    requires G > 0 && c % G == Pow(g0, e) % G
    ensures (c * c) % G == Pow(g0, 2 * e) % G
    ensures (c * c * g0) % G == Pow(g0, 2 * e + 1) % G
  {
    var p := Pow(g0, e);
    MulCongruent(c, p, c, p, G);
    PowAdd(g0, e, e);
    MulCongruent(c * c, p * p, g0, g0, G);
    PowAdd(g0, 2 * e, 1);
    PowOne(g0);
  }

  /** One round of the scan: consuming x >= 2 moves its low bit into the
      exponent and continues with x / 2. */
  lemma ComputedExpStep(e: nat, x: nat)
    requires x >= 2
    ensures ComputedExp(e, x) == ComputedExp(2 * e + x % 2, x / 2)
  {
  }

  /** The accumulated exponent is the starting exponent shifted past the low
      bits of x, plus those low bits read in reverse order. */
  lemma {:induction false} ComputedExpValue(e: nat, x: nat)
    requires x >= 1
    ensures ComputedExp(e, x) == e * Pow(2, |LowBits(x)|) + LsbValue(Reverse(LowBits(x)))
    decreases x
  {
    if x == 1 {
      assert Bits(1) == [true] + Bits(0);
      assert LowBits(1) == [];
      assert Pow(2, |LowBits(1)|) == 1;
    } else {
      ComputedExpValueStep(e, x);
      ComputedExpValue(2 * e + x % 2, x / 2);
    }
  }

  /** The inductive step of ComputedExpValue: one round of the scan leaves
      the gap between the computed exponent and the claimed value unchanged. */
  lemma ComputedExpValueStep(e: nat, x: nat)
    requires x >= 2
    ensures ComputedExp(e, x) - (e * Pow(2, |LowBits(x)|) + LsbValue(Reverse(LowBits(x))))
         == ComputedExp(2 * e + x % 2, x / 2)
            - ((2 * e + x % 2) * Pow(2, |LowBits(x / 2)|) + LsbValue(Reverse(LowBits(x / 2))))
  {
    var low := LowBits(x / 2);
    var bit := x % 2;
    var p := Pow(2, |low|);
    var rest := LsbValue(Reverse(low));
    LowBitsHalve(x);
    LsbValueAppend(Reverse(low), bit == 1);
    assert |LowBits(x)| == |low| + 1;
    assert Pow(2, |low| + 1) == 2 * p;
    ComputedExpStep(e, x);
    ShiftAdd(e, bit, p, rest, Pow(2, |LowBits(x)|), LsbValue(Reverse(LowBits(x))));
  }

  /** Shifting right drops the lowest of the low bits; reversed, that bit
      becomes the most significant one. */
  lemma LowBitsHalve(x: nat)
    requires x >= 2
    ensures LowBits(x) == [x % 2 == 1] + LowBits(x / 2)
    ensures Reverse(LowBits(x)) == Reverse(LowBits(x / 2)) + [x % 2 == 1]
  {
    var b := x % 2 == 1;
    var low := LowBits(x / 2);
    assert Bits(x) == [b] + Bits(x / 2);
    assert LowBits(x) == [b] + low;
    assert ([b] + low)[1..] == low;
  }

  /** The arithmetic of one shift: with weight p' == 2p for the longer bit
      string, (2e + bit) * p + rest == e * p' + (rest + bit * p). */
  lemma ShiftAdd(e: int, bit: int, p: int, rest: int, p': int, value: int)
    requires bit == 0 || bit == 1
    requires p' == 2 * p && value == rest + (if bit == 1 then p else 0)
    ensures (2 * e + bit) * p + rest == e * p' + value
  {
    assert (2 * e + bit) * p == 2 * (e * p) + bit * p;
  }

  /** x itself is its leading 1 followed by its low bits in their own order. */
  lemma ValueFromLowBits(x: nat)
    requires x >= 1
    ensures x == Pow(2, |LowBits(x)|) + LsbValue(LowBits(x))
  {
    LsbValueOfBits(x);
    LsbValueAppend(LowBits(x), true);
  }

  /** The routine raises g to x exactly when the bits of x below its leading 1
      read the same in both directions (x = 1, 2, 3, 4, 7, 10, ...). */
  lemma ExponentExactIffPalindrome(x: nat)
    requires x >= 1
    ensures ComputedExp(1, x) == x <==> Reverse(LowBits(x)) == LowBits(x)
  {
    ComputedExpValue(1, x);
    ValueFromLowBits(x);
    if ComputedExp(1, x) == x {
      LsbValueInjective(Reverse(LowBits(x)), LowBits(x));
    }
  }

  /** For x >= 2 with palindromic low bits the as-written routine's result,
      g^ComputedExp(1, x) mod G, is g^x mod G. */
  lemma PalindromicExponentAgrees(g: int, x: nat, G: int)
    requires G > 0 && x >= 2 && Reverse(LowBits(x)) == LowBits(x)
    ensures Pow(g, ComputedExp(1, x)) % G == Pow(g, x) % G
  {
    ExponentExactIffPalindrome(x);
  }

  /** On a power of two only squarings happen: starting from exponent e,
      consuming 2^k yields e * 2^k. */
  lemma {:induction false} ComputedExpPowerOfTwo(e: nat, k: nat)
    ensures ComputedExp(e, Pow(2, k)) == e * Pow(2, k)
    decreases k
  {
    if k > 0 {
      var p := Pow(2, k - 1);
      assert Pow(2, k) == 2 * p;
      ComputedExpStep(e, 2 * p);
      ComputedExpPowerOfTwo(2 * e, k - 1);
      ShiftAdd(e, 0, p, 0, Pow(2, k), 0);
    }
  }

  /** For x = 2^k with k >= 1 the as-written routine yields g^x mod G. */
  lemma PowerOfTwoExponentAgrees(g: int, k: nat, G: int)
    requires G > 0 && k >= 1
    ensures Pow(g, ComputedExp(1, Pow(2, k))) % G == Pow(g, Pow(2, k)) % G
  {
    ComputedExpPowerOfTwo(1, k);
  }

  /** With the protocol's own generator and modulus, x = 5 gives 2^6 mod G = 64
      where 2^5 mod G = 32 is intended; x = 6 likewise gives the fifth power. */
  lemma BitOrderWitness()
    ensures ComputedExp(1, 5) == 6 && ComputedExp(1, 6) == 5
    ensures Pow(Generator, ComputedExp(1, 5)) % Modulus == 64
    ensures Pow(Generator, 5) % Modulus == 32
  {
    assert Pow(2, 5) == 32 by {
      assert Pow(2, 0) == 1;
      assert Pow(2, 1) == 2;
      assert Pow(2, 2) == 4;
      assert Pow(2, 3) == 8;
      assert Pow(2, 4) == 16;
    }
    assert Pow(2, 6) == 64;
    ModOfReduced(32, Modulus);
    ModOfReduced(64, Modulus);
  }
}
