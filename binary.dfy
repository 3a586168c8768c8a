/** Binary representations of natural numbers, least-significant bit first,
    as `x & 1` and `x >>= 1` expose them one at a time. */
module Binary {
  import opened Arith

  /** The bits of x, least significant first, without leading zeros. */
  ghost function Bits(x: nat): (s: seq<bool>)
    ensures x == 0 <==> s == []
    ensures x > 0 ==> s[|s| - 1]
    decreases x
  {
    if x == 0 then [] else [x % 2 == 1] + Bits(x / 2)
  }

  /** The value of a bit sequence read least significant first. */
  ghost function LsbValue(s: seq<bool>): nat
    decreases |s|
  {
    if s == [] then 0 else (if s[0] then 1 else 0) + 2 * LsbValue(s[1..])
  }

  /** The same sequence read in the opposite order. */
  ghost function Reverse(s: seq<bool>): (r: seq<bool>)
    ensures |r| == |s|
    decreases |s|
  {
    if s == [] then [] else Reverse(s[1..]) + [s[0]]
  }

  /** Bits is a faithful representation: reading the bits back gives x. */
  lemma {:induction false} LsbValueOfBits(x: nat)
    ensures LsbValue(Bits(x)) == x
    decreases x
  {
    if x > 0 {
      LsbValueOfBits(x / 2);
      assert Bits(x)[1..] == Bits(x / 2);
    }
  }

  /** Appending a bit at the most significant end adds b * 2^|s|. */
  lemma {:induction false} LsbValueAppend(s: seq<bool>, b: bool)
    ensures LsbValue(s + [b]) == LsbValue(s) + (if b then Pow(2, |s|) else 0)
    decreases |s|
  {
    if s == [] {
      assert LsbValue([b]) == (if b then 1 else 0) + 2 * LsbValue([]);
    } else {
      assert (s + [b])[1..] == s[1..] + [b];
      LsbValueAppend(s[1..], b);
    }
  }

  /** Two bit sequences of equal length with the same value are equal. */
  lemma {:induction false} LsbValueInjective(a: seq<bool>, b: seq<bool>)
    requires |a| == |b| && LsbValue(a) == LsbValue(b)
    ensures a == b
    decreases |a|
  {
    if a != [] {
      var ha := if a[0] then 1 else 0;
      var hb := if b[0] then 1 else 0;
      assert ha + 2 * LsbValue(a[1..]) == hb + 2 * LsbValue(b[1..]);
      assert ha == hb;
      LsbValueInjective(a[1..], b[1..]);
      assert a == [a[0]] + a[1..];
      assert b == [b[0]] + b[1..];
    }
  }

  /** Shifting right drops exactly one bit. */
  lemma BitsHalve(x: nat)
    requires x >= 1
    ensures |Bits(x / 2)| == |Bits(x)| - 1
  {
    assert Bits(x) == [x % 2 == 1] + Bits(x / 2);
  }
}
