/** The byte-folding loop of `rand` in avvote.py: n random bytes are turned into
    an unsigned integer, most significant byte first. The bytes themselves come
    from the operating system in the source; here they are a parameter. */
module Rand {
  import opened Arith

  /** An unsigned 8-bit value, as `struct.unpack('B')` yields it. */
  type byte = b: int | 0 <= b < 256

  /** The big-endian value of a byte string: byte i weighs 256^(n - 1 - i). */
  ghost function BigEndian(bs: seq<byte>): int
    decreases |bs|
  {
    if bs == [] then 0 else bs[0] * Pow(256, |bs| - 1) + BigEndian(bs[1..])
  }

  /** The n-byte big-endian encoding of v (v modulo 256^n). */
  ghost function ToBytes(v: nat, n: nat): (bs: seq<byte>)
    ensures |bs| == n
    decreases n
  {
    if n == 0 then [] else ToBytes(v / 256, n - 1) + [v % 256]
  }

  /** `rand(n)` given the n bytes it reads: r = r * 256 + x for each byte x.
      The result is the big-endian value of the bytes and fits in n bytes. */
  method Rand(bs: seq<byte>) returns (r: nat)
    ensures r == BigEndian(bs)
    ensures r < Pow(256, |bs|)
  {
    r := 0;
    for i := 0 to |bs|
      invariant r == BigEndian(bs[..i])
    {
      assert bs[..i + 1] == bs[..i] + [bs[i]];
      BigEndianAppend(bs[..i], bs[i]);
      r := r * 256 + bs[i];
    }
    assert bs[..|bs|] == bs;
    BigEndianBound(bs);
  }

  /** The weight of the leading byte of an (n+1)-byte string is 256 times
      that of an n-byte string, so prefixing distributes over the shift. */
  lemma ShiftPrefix(b: int, n: nat, rest: int, x: int)
    ensures b * Pow(256, n + 1) + (rest * 256 + x) == (b * Pow(256, n) + rest) * 256 + x
  {
    assert Pow(256, n + 1) == 256 * Pow(256, n);
  }

  /** Appending a byte shifts the value left by one byte and adds the byte. */
  lemma {:induction false} BigEndianAppend(bs: seq<byte>, b: byte)
    ensures BigEndian(bs + [b]) == BigEndian(bs) * 256 + b
    decreases |bs|
  {
    if bs == [] {
      assert BigEndian([b]) == b * Pow(256, 0) + BigEndian([]);
    } else {
      assert (bs + [b])[1..] == bs[1..] + [b];
      BigEndianAppend(bs[1..], b);
      ShiftPrefix(bs[0], |bs| - 1, BigEndian(bs[1..]), b);
    }
  }

  /** b * p + rest stays below 256 * p when b < 256 and rest < p. */
  lemma LeadingByteBound(b: byte, p: int, rest: int)
    requires 0 <= rest < p
    ensures 0 <= b * p + rest < 256 * p
  {
    assert (255 - b) * p >= 0 by {
      MulNonNegative(255 - b, p);
    }
    MulNonNegative(b, p);
  }

  /** The value of n bytes is non-negative and below 256^n. */
  lemma {:induction false} BigEndianBound(bs: seq<byte>)
    ensures 0 <= BigEndian(bs) < Pow(256, |bs|)
    decreases |bs|
  {
    if bs != [] {
      BigEndianBound(bs[1..]);
      LeadingByteBound(bs[0], Pow(256, |bs| - 1), BigEndian(bs[1..]));
      assert Pow(256, |bs|) == 256 * Pow(256, |bs| - 1);
    }
  }

  /** k zero bytes. */
  ghost function Zeros(k: nat): (zs: seq<byte>)
    ensures |zs| == k
  {
    seq(k, _ => 0)
  }

  /** k zero bytes in front of a byte string do not change its value. */
  lemma {:induction false} LeadingZeros(k: nat, bs: seq<byte>)
    ensures BigEndian(Zeros(k) + bs) == BigEndian(bs)
    decreases k
  {
    if k > 0 {
      var s := Zeros(k) + bs;
      assert s[0] == 0;
      assert s[1..] == Zeros(k - 1) + bs;
      LeadingZeros(k - 1, bs);
      assert BigEndian(s) == 0 * Pow(256, |s| - 1) + BigEndian(s[1..]);
    } else {
      assert Zeros(0) + bs == bs;
    }
  }

  /** Encoding a value that fits in n bytes and folding it back gives the value. */
  lemma {:induction false} BigEndianOfToBytes(v: nat, n: nat)
    requires v < Pow(256, n)
    ensures BigEndian(ToBytes(v, n)) == v
    decreases n
  {
    if n > 0 {
      assert Pow(256, n) == 256 * Pow(256, n - 1);
      BigEndianOfToBytes(v / 256, n - 1);
      BigEndianAppend(ToBytes(v / 256, n - 1), v % 256);
    }
  }

  /** Folding a byte string and encoding the value in as many bytes gives the
      byte string back: the fold loses nothing, leading zeros included. */
  lemma {:induction false} ToBytesOfBigEndian(bs: seq<byte>)
    ensures BigEndian(bs) >= 0
    ensures ToBytes(BigEndian(bs), |bs|) == bs
    decreases |bs|
  {
    BigEndianBound(bs);
    if bs != [] {
      var init := bs[..|bs| - 1];
      var last := bs[|bs| - 1];
      assert bs == init + [last];
      BigEndianAppend(init, last);
      BigEndianBound(init);
      ToBytesOfBigEndian(init);
      assert BigEndian(bs) / 256 == BigEndian(init);
      assert BigEndian(bs) % 256 == last;
    }
  }
}
