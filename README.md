# avvote: verified model of the round-one arithmetic

avvote.py is an early revision of an implementation of the Hao–Ryan–Zieliński
two-round anonymous voting protocol ("Anonymous Voting by Two-Round Public
Discussion"). In this revision each voter gets as far as round one. It draws a
random 512-bit secret x with `rand`, then forms the public value g^x mod G
with `g_pow_x_mod_G`. Here G is the 1024-bit prime of the Second Oakley Group
(section 6.2 of RFC 2409) and g = 2. The zero-knowledge proof is a stub, and
the rest of `vote` only prints.

This project models the two loops that do the work:

- `arith.dfy` (module `Arith`): integer powers `Pow` and the congruence facts
  that modular exponentiation relies on.
- `binary.dfy` (module `Binary`): the bits of a natural number, least
  significant first. These are the bits that `x & 1` and `x >>= 1` expose.
  It also gives their value and their reversal.
- `powmod.dfy` (module `PowMod`): `g_pow_x_mod_G` as the method `GPowXModG`.
  It has the loop of the original, and its contract states what it actually
  computes. A ghost function `ComputedExp` tracks the exponent that the
  accumulator stands for. `ModExp` is a corrected routine proved to compute
  g^x mod G.
- `rand.dfy` (module `Rand`): the byte-folding loop of `rand` as the method
  `Rand`. It runs over a byte string given as a parameter and is proved to
  return the string's big-endian unsigned value.

The routine does not compute g^x mod G. It reads the bits of x starting from
the least significant one. It accumulates them the way a
most-significant-first square-and-multiply would: square, then multiply by g
when the bit is set. So the exponent it raises g to is x's leading 1 followed
by x's lower bits in reverse order. For example, x = 5 yields g^6 and x = 6
yields g^5. The model proves this exactly (`ComputedExpValue`). It also proves
that the exponent equals x exactly when the bits below x's leading 1 read the
same in both directions (`ExponentExactIffPalindrome`), for example 2, 3, 4,
7 and 10. So for every such x >= 2 the result is g^x mod G
(`PalindromicExponentAgrees`). For other x the result can still coincide with
g^x mod G for particular g and G (g = 1, say), but not because of the
exponent.

The name `g_pow_x_mod_G` (avvote.py:20) and the label "g^x" under which
`vote` prints the result (avvote.py:43) say the routine is meant to return
g^x mod G. The code computes a different power, as above. For x = 1 it also
returns g unreduced, because the loop that applies `% G` never runs. The
model follows the code. `ModExp` is the evidently intended routine.

## Model

| member | source | states |
|---|---|---|
| `PowMod.GPowXModG` | avvote.py:20-29 | For x == 0 the result is 1, whatever g and G are. For x == 1, and for negative x, the loop never runs and g comes back as passed, unreduced. For x >= 2 the result is g raised to ComputedExp(1, x), reduced into [0, G). The loop body runs exactly bit-length(x) − 1 times. The loop invariant is that the accumulator is congruent to g0^e mod G, with e := 2e + (x & 1) on each round. |
| `PowMod.SquareMultiplyStep` | avvote.py:24-28 | One round of the loop: squaring a value congruent to g0^e gives g0^(2e) mod G, and the extra multiply by g0 gives g0^(2e+1) mod G. |
| `Binary.BitsHalve` | avvote.py:27 | `x >>= 1` removes exactly one bit from x's binary representation. This is what bounds the number of rounds. |
| `Binary.LsbValueOfBits` | avvote.py:25-27 | Reading the bits exposed by `x & 1` / `x >>= 1` back, least significant first, gives x. |
| `PowMod.ComputedExpValue` | avvote.py:21-28 | Starting from exponent e, the exponent the loop builds is e shifted past x's low bits, plus those low bits read in reverse order. With e = 1 this is x's leading 1 followed by its lower bits reversed. |
| `PowMod.ExponentExactIffPalindrome` | avvote.py:23-28 | The computed exponent equals x if and only if x's bits below the leading 1 form a palindrome. Both directions are proved. |
| `PowMod.PalindromicExponentAgrees` | avvote.py:23-28 | For x ≥ 2 whose low bits form a palindrome, the routine's result g^ComputedExp(1, x) mod G equals g^x mod G. |
| `PowMod.ComputedExpPowerOfTwo` | avvote.py:23-28 | On x = 2^k only squarings happen: starting from exponent e the loop ends with e·2^k. |
| `PowMod.PowerOfTwoExponentAgrees` | avvote.py:23-28 | For x = 2^k with k ≥ 1 the routine's result is g^x mod G. |
| `PowMod.BitOrderWitness` | avvote.py:20-29 | Uses the source's own g = 2 and modulus G. For x = 5 the routine returns 2^6 mod G = 64 where 2^5 mod G = 32 is intended. The exponents for 5 and 6 are swapped. |
| `PowMod.ModExp` | avvote.py:20-29 | Corrected routine. It scans x low bit first like the original and returns exactly g^x mod G, in [0, G). |
| `PowMod.RightToLeftStep` | avvote.py:23-28 | One round of the corrected loop keeps r·b^y ≡ g^x (mod G). |
| `Rand.Rand` | avvote.py:14-18 | Folding the n bytes with r = r·256 + x gives their big-endian unsigned value, and 0 ≤ r < 256^n. |
| `Rand.BigEndianAppend` | avvote.py:17 | Appending byte b turns the value r into r·256 + b. |
| `Rand.BigEndianBound` | avvote.py:15-17 | The value of n bytes is non-negative and below 256^n. |
| `Rand.LeadingZeros` | avvote.py:15-17 | Any number of leading zero bytes leaves the value unchanged. |
| `Rand.BigEndianOfToBytes` | avvote.py:15-17 | Encoding a value below 256^n as n big-endian bytes and folding them gives the value back. |
| `Rand.ToBytesOfBigEndian` | avvote.py:15-17 | Encoding the folded value of n bytes back into n bytes gives the original bytes, leading zeros included. So the fold loses no information. |

## Left out

- Reading `/dev/urandom` and `struct.unpack` in `rand` (avvote.py:16) is operating-system I/O. `Rand.Rand` takes the bytes as a parameter. A short read, which makes `struct.unpack` fail, is not modelled.
- `zero_k` (avvote.py:31-33) is a placeholder that returns 0 and has no behaviour to model.
- `vote` (avvote.py:35-44) only calls the two modelled routines and prints the results. Console output and this composition are not modelled. `Rand.Rand` takes a byte string of any length, and the byte count n (`512/8` in `vote`) is its length, so Python 2 division is not modelled.
- The constants at avvote.py:11-12 appear only as `PowMod.Modulus` and `PowMod.Generator`, for the concrete witness. Their primality and generator properties are not proved.
- PowMod.GPowXModG: requires G > 0. For G ≤ 0 Python would raise a division error or return a non-positive floored remainder once the loop runs. The protocol only uses the positive modulus.
- PowMod.ModExp: takes a natural exponent, so negative exponents are not modelled for the corrected routine.

## Findings

| source | as written | input that shows it | evidently intended | confidence | as-written member | corrected member |
|---|---|---|---|---|---|---|
| avvote.py:23-28 | Reads x's bits from the least significant end but accumulates them as a most-significant-first square-and-multiply. The result is g^E mod G, where E is x's leading 1 followed by x's lower bits in reverse order. | g = 2, G = the Oakley modulus, x = 5: returns 64 = 2^6 mod G (and x = 6 returns 2^5 mod G) | g^x mod G for every exponent x | high; not executed | `PowMod.GPowXModG`, `PowMod.BitOrderWitness` | `PowMod.ModExp` |
