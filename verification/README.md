# Verified model of the multi-precision integer library

This project models the big-number library of the tool (`tcmtool/mytcmtool/alg/`, the 0.9.7 line of
the OpenSSL "BN" library) and proves that each of its routines computes the integer it promises.
Numbers are little-endian arrays of 32-bit words that the routines rewrite in place. The proofs go up
from the half-word multiplication macros to the exponentiators, the modular inverse and the Kronecker
symbol; at every level the contract is a line of integer mathematics about the values before and after,
with the error results, the aliasing allowed and the sign of zero. The symbol is proved to be the one of
number theory, by way of quadratic reciprocity.

`dafny verify dfyconfig.toml` checks the whole project with Dafny 4.11.

## Modules

| modules | what they hold |
|---|---|
| Words, Bits, Divisors, Residues | the value of a word sequence, powers of two and bits, common divisors, congruences |
| HalfWords, DivWord, WordLoops, Comba, Ripple | `bn_lcl.h`, `bn_asm.c`: words, word loops, column products, carry ripples |
| Bignums, Basics, AddSub, Shift, WordOps | the BIGNUM record and `bn_lib.c`, `bn_add.c`, `bn_shift.c`, `bn_word.c` |
| Multiply, Karatsuba, Square, Products | `bn_mul.c`, `bn_sqr.c` |
| QuotientDigit, LongDivision, Division | `bn_div.c` |
| Modular, Inverse, Montgomery, Reciprocal | `bn_mod.c`, `bn_gcd.c`, `bn_mont.c`, `bn_recp.c` |
| Windows, ExpBase, RecpExp, SimpleExp, MontExp, MontWordExp, Exponentiation | `bn_exp.c` |
| HalfSystem, QuadraticReciprocity, Legendre | Gauss's lemma, quadratic reciprocity and Euler's criterion |
| Symbols, JacobiTheory, Kronecker | the symbol as computed, that it is the Kronecker symbol, and `bn_kron.c` |
| Context, Bytes, Hex | `bn_ctx.c`, the conversions of `bn_lib.c` and `bn_print.c` |
| PoolUse | how much of the pool the library's nested calls take |
| NegativeZeros | zeros marked negative: where they come from and what they do |

## How the library is modelled

- The configuration is the one `openssl/opensslconf.h` and `openssl/bn.h` select: 32-bit words,
  products from half words (no BN_LLONG), BN_MUL_COMBA, BN_SQR_COMBA and BN_RECURSION on, MONT_WORD on,
  the portable C `bn_div_words`.
- `Bignum` is a class with the fields `d`, `top` and `neg`. The buffer `d` holds dmax + 1 words, is
  replaced when it grows and is a sequence that the methods reassign word by word; a word pointer of the
  C code is a `Bignum` and an offset into `d`. `Wf()` says that top <= dmax, `Valid()` also that the
  leading word is not zero, `ProperSign()` that zero is not marked negative. A NULL buffer is a buffer of
  the one word beyond dmax = 0.
- Two slices may lie in one buffer, and two parameters may be one object, wherever the C code allows it.
  A precondition such as `r != p` names an aliasing that the code does not survive.
- Bit operations on words are written as arithmetic: a shift is a multiplication or a division, a mask is
  a remainder, `|` of disjoint bits is a sum. Unrolled loops are loops.
- A temporary from BN_CTX_get is a `new Bignum.Temp()`, of which only `Wf()` is known, since its last user
  left something in it. The pool itself is the module Context, a class refining a state machine. Where
  the left-over sign of a temporary decides a result (BN_mod_mul, BN_mod_mul_montgomery,
  BN_mod_mul_reciprocal), the temporary is a parameter. The exponentiators pass
  the same one to all their products, as the pool hands out the same place again, and so never return a
  negative zero.
- The NULL arguments of BN_div are the methods `Div`, `Mod` and `Quotient`. A routine that returns NULL or
  0 on an arithmetic error returns `ok == false` here.
- `BN_MONT_CTX` and `BN_RECP_CTX` are the classes `MontCtx` and `RecpCtx`; their `Valid()` relates the
  cached constants to the modulus. A `MontCtx?` that is null is the `in_mont` of a caller who passes none.
- In products, the operand that BN_mul pads with a zero word (`bn_mul.c:605-621`) is padded in a copy.

## Where the code and its comments disagree

The model follows the code.

- The comments of bn_mul_recursive and bn_sqr_recursive ask for 2*n2 words of workspace. The recursion uses
  Work(n2) = 4*n2 - 32, so the comments are right exactly for n2 <= 16 (`Karatsuba.CommentedWork`); BN_mul
  and BN_sqr allocate 4*n2 (`bn_mul.c:629-633`).
- bn_div_words needs h < d, which is exactly when the quotient has one word (`DivWord.OneWordQuotient`).
  The assertion at `bn_asm.c:184` is compiled out and asks for the opposite: for every divisor below 2^31
  it would fail whenever h < d (`DivWord.AssertionRejects`). For d <= h < 2d the code reduces h by d and
  returns the low word of the quotient.
- BN_mod_word returns the residue for every number exactly when w <= 2^16 or w is a power of two
  (`WordOps.ModWordExact`); otherwise the bits that the shifts push out are lost.
- BN_nnmod is documented to return 0 <= r < |d|; for a minuend marked negative but zero it returns |d|.
  Such numbers come out of BN_rshift, BN_rshift1 and BN_div_word, BN_sqr of zero keeps the old sign of its
  result, and BN_hex2bn reads one from "-" or "-0". `Modular.NNMod` is in range exactly when the operand is not such a zero. The
  module NegativeZeros makes them with the library's routines and passes them on to BN_nnmod, BN_mod_add,
  BN_mod_sub, BN_mod_lshift, BN_bn2hex, BN_cmp and BN_kronecker.
- BN_mod_mul gives |m| instead of 0 exactly when both factors are one object, it is zero, and the temporary
  has a minus sign left over from its last user (`Modular.ModMul`, `NegativeZeros.FullProduct`).
- BN_mod_sqr is documented to have r->neg == 0 after the square; a zero operand leaves the old sign of r
  (`bn_mod.c:86`, `Modular.ModSqr`, `NegativeZeros.SquaredZero`).
- BN_div is documented to give dv*divisor + rm = num and the remainder the sign of the dividend. When the
  quotient overwrites the dividend, its sign is read back after it has been replaced: in place the equation
  holds exactly if the divisor is not negative, the dividend is smaller, or nothing remains
  (`Division.Div`; `Division.SevenByMinusTwo` is an input where it fails). BN_div_recp loses the sign of a
  negative dividend that the remainder overwrites (`Reciprocal.DivRecp`, `Reciprocal.MinusSevenByTwo`).
- BN_mod_exp and its relatives return 1 for the exponent 0, which is a^0 mod m only for m > 1
  (`Exponentiation.ZeroExponent`).
- The exponentiators use the absolute value of the exponent; its sign is ignored.
- BN_mod_exp_mont reads the lowest word of the modulus without looking at its length, so for a zero
  modulus and a zero exponent the outcome depends on a word left over in the buffer (`MontExp.ModExpMont`).
- BN_from_montgomery with a context that was never set returns success with the result unwritten, and
  without the BN_CTX_end that the other exits perform (`bn_mont.c:121`). `Montgomery.FromMontgomery` states
  the first; the pool is not part of that method.
- BN_RECP_CTX_init leaves `shift` unset, so a context is usable only after BN_RECP_CTX_set, and
  BN_MONT_CTX_init leaves `n0` unset.
- BN_add_word and BN_sub_word of 0 to 0 leave a number of one zero word; BN_is_zero accepts it.
- BN_from_montgomery makes the result positive when it subtracts N, whatever the sign of the operand.
- BN_bn2hex allocates top*8 + 2 characters; the text of a zero marked negative needs one more.
- BN_kronecker of a zero marked negative and a negative b has the opposite sign.

## Model

| member | source | states |
|---|---|---|
| HalfWords.Mul64 | tcmtool/mytcmtool/alg/openssl/bn_lcl.h:196-212 | the half-word macro gives the exact two-word product of any two words, whatever carries occur |
| HalfWords.Mul | tcmtool/mytcmtool/alg/openssl/bn_lcl.h:247-258 | one word and a carry word hold a*w + c exactly; the carry never overflows |
| HalfWords.MulAdd | tcmtool/mytcmtool/alg/openssl/bn_lcl.h:231-245 | one word and a carry word hold r + a*w + c exactly |
| HalfWords.Sqr64 | tcmtool/mytcmtool/alg/openssl/bn_lcl.h:214-229 | the half-word square, its doubled middle product split at bit 15, is the exact two-word square |
| HalfWords.MulAddC | tcmtool/mytcmtool/alg/bn_asm.c:438-443 | adds a product into the three-word accumulator exactly, as long as the sum fits three words |
| HalfWords.SqrAddC | tcmtool/mytcmtool/alg/bn_asm.c:457-460 | adds a square into the accumulator exactly |
| HalfWords.MulAddC2 | tcmtool/mytcmtool/alg/bn_asm.c:445-455 | adds twice a product into the accumulator: the two doubling bits and the wrapping carry are all accounted for |
| WordLoops.AddWords | tcmtool/mytcmtool/alg/bn_asm.c:279-326 | result words plus the carry are the sum of two slices, in place or not, and nothing else in the buffer changes |
| WordLoops.SubWords | tcmtool/mytcmtool/alg/bn_asm.c:329-364 | result words less the borrow are the difference of two slices |
| WordLoops.MulWords | tcmtool/mytcmtool/alg/bn_asm.c:113-138 | value(out) + carry * 2^(32*num) = value(a) * w for every length, with a one-word carry |
| WordLoops.MulAddWords | tcmtool/mytcmtool/alg/bn_asm.c:86-111 | value(out) + carry * 2^(32*num) = value(a) * w + value(old r) for every length |
| WordLoops.CmpWords | tcmtool/mytcmtool/alg/bn_lib.c:715-731 | the result is -1, 0 or 1 and is the sign of the difference of the values |
| Comba.ColumnsAre | tcmtool/mytcmtool/alg/bn_asm.c:373-376 | the weighted column sums of two word strings are the product of their values |
| Comba.MulComba | tcmtool/mytcmtool/alg/bn_asm.c:466-618 | the column routines write the exact product of 4 or 8 words; the three-word accumulator never overflows |
| Comba.SqrComba | tcmtool/mytcmtool/alg/bn_asm.c:620-740 | the column squares with doubled off-diagonal products write the exact square of 4 or 8 words |
| Ripple.Increment | tcmtool/mytcmtool/alg/bn_mul.c:152-157 | a carry run started where the number fits its words stops inside them and adds exactly one |
| Ripple.AddWordAt | tcmtool/mytcmtool/alg/bn_mul.c:143-158 | adding a word at a position and running the carry adds exactly that word at that weight |
| Multiply.MulNormal | tcmtool/mytcmtool/alg/bn_mul.c:673-703 | the schoolbook rows give the exact product for any operand lengths from one word up |
| Multiply.MulLowNormal | tcmtool/mytcmtool/alg/bn_mul.c:705-722 | the shortened rows give the product modulo 2^(32*n) |
| Karatsuba.MiddleTerm | tcmtool/mytcmtool/alg/bn_mul.c:16-20 | the signed product of differences and the two outer products make up the cross terms |
| Karatsuba.CombineValues | tcmtool/mytcmtool/alg/bn_mul.c:118-159 | the signed carry of the middle term is never negative, and what is left to add at word 3n fits below word 4n |
| Karatsuba.Differences | tcmtool/mytcmtool/alg/bn_mul.c:49-83 | the nine sign cases leave both absolute differences and the sign of their product, or report that it is zero |
| Karatsuba.Middle | tcmtool/mytcmtool/alg/bn_mul.c:123-133 | outer products plus or minus the middle product, with a signed carry between -1 and 2 |
| Karatsuba.AddMiddle | tcmtool/mytcmtool/alg/bn_mul.c:140-159 | adding the middle term at word n and running its carry completes the product; the ripple stays inside r |
| Karatsuba.HalfProducts | tcmtool/mytcmtool/alg/bn_mul.c:85-116 | the three half-size products, with the operands intact and only r and the workspace changed |
| Karatsuba.MulRecursive | tcmtool/mytcmtool/alg/bn_mul.c:21-160 | for n2 = 8*2^k the 2*n2 words of r are the exact product with Work(n2) words of workspace; the last 16 of which end up holding a middle term; nothing else changes |
| Karatsuba.WorkIs | tcmtool/mytcmtool/alg/bn_mul.c:85-116 | the workspace that the recursion asks for is 4*n2 - 32 words |
| Karatsuba.CommentedWork | tcmtool/mytcmtool/alg/bn_mul.c:11-20 | the 2*n2 words of the comment are enough if and only if n2 <= 16; beyond, the last words written lie outside them |
| Square.SqrWords | tcmtool/mytcmtool/alg/bn_asm.c:140-161 | the squares of the words, each at twice its position |
| Square.SquareSplit | tcmtool/mytcmtool/alg/bn_sqr.c:93-128 | a square is the squares of its words plus twice their cross products, at every split point |
| Square.CrossProducts | tcmtool/mytcmtool/alg/bn_sqr.c:102-119 | the staggered rows compute exactly the cross products |
| Square.SquareFits | tcmtool/mytcmtool/alg/bn_sqr.c:121-127 | neither doubling the cross products nor adding the squares carries out of 2n words, and the sum is the square |
| Square.SqrNormal | tcmtool/mytcmtool/alg/bn_sqr.c:93-128 | writes the exact square; all carries are proved to be zero |
| Square.SqrRecursive | tcmtool/mytcmtool/alg/bn_sqr.c:141-225 | the recursive square is exact with Work(n2) words of workspace, the last 16 of which hold a middle term; nothing else changes |
| Square.EveryPath | tcmtool/mytcmtool/alg/bn_sqr.c:9-90 | rows, cross products, columns and recursion write the same words for the square of n words |
| Bits.NumBitsWord | tcmtool/mytcmtool/alg/bn_lib.c:97-182 | the table lookup gives the number n with 2^(n-1) <= l < 2^n, and 0 for 0 |
| DivWord.HalfDigit | tcmtool/mytcmtool/alg/bn_asm.c:195-217 | the trial digit and its correction loop give the exact half-word quotient digit |
| DivWord.PassCarries | tcmtool/mytcmtool/alg/bn_asm.c:218-229 | subtracting a digit never makes h fall below th, so the final correction h += d never fires |
| DivWord.DivPass | tcmtool/mytcmtool/alg/bn_asm.c:197-236 | one pass: an exact digit and the exact remainder |
| DivWord.DivWords | tcmtool/mytcmtool/alg/bn_asm.c:176-239 | for all h < d: ret*d <= h*2^32 + l < (ret+1)*d from half-word divisions only; for d <= h < 2d the low word of the two-word quotient; BN_MASK2 for d = 0 |
| DivWord.OneWordQuotient | tcmtool/mytcmtool/alg/bn_asm.c:176-189 | a quotient of one word exists if and only if h < d |
| DivWord.AssertionRejects | tcmtool/mytcmtool/alg/bn_asm.c:184-184 | for every divisor below 2^31 the compiled-out assertion fails for all h < d |
| Bignums.Bignum.constructor | tcmtool/mytcmtool/alg/bn_lib.c:225-244 | a new number is a valid zero |
| Basics.FixTop | tcmtool/mytcmtool/alg/openssl/bn.h:369-377 | drops leading zero words and keeps the magnitude |
| Basics.WExpand | tcmtool/mytcmtool/alg/bn_lib.c:377-392 | room for the words asked for and one more; the number is kept and a large enough buffer untouched |
| Basics.SetWord | tcmtool/mytcmtool/alg/bn_lib.c:510-535 | the value of a word, normalised |
| Basics.Copy | tcmtool/mytcmtool/alg/bn_lib.c:413-450 | same words, length and sign; also when both are one object |
| Basics.Ucmp | tcmtool/mytcmtool/alg/bn_lib.c:589-609 | comparing lengths first and then words orders the magnitudes of normalised numbers |
| Basics.Cmp | tcmtool/mytcmtool/alg/bn_lib.c:611-650 | orders the values, except that -0 comes out below 0, stated exactly |
| Basics.NumBits | tcmtool/mytcmtool/alg/bn_lib.c:184-196 | the bit length of the magnitude |
| Basics.BitInWord | tcmtool/mytcmtool/alg/bn_lib.c:683-695 | which word and which of its bits hold bit n of a number |
| Basics.IsBitSet | tcmtool/mytcmtool/alg/bn_lib.c:683-695 | reads bit n of the magnitude for every n |
| Basics.SetBit | tcmtool/mytcmtool/alg/bn_lib.c:652-668 | adds 2^n unless the bit was set; result normalised, sign kept |
| Basics.ZeroMag | tcmtool/mytcmtool/alg/openssl/bn.h:211-212 | BN_is_zero is true of a normalised number exactly when its value is 0 |
| Basics.WordMag | tcmtool/mytcmtool/alg/openssl/bn.h:211-215 | BN_abs_is_word is true of a normalised number exactly when its magnitude is that word |
| Basics.OddMag | tcmtool/mytcmtool/alg/openssl/bn.h:216-216 | BN_is_odd is the parity of the magnitude |
| AddSub.Usub | tcmtool/mytcmtool/alg/bn_add.c:112-201 | abs(a) - abs(b) for abs(b) <= abs(a), in place or not; refused only when b has more words |
| AddSub.Uadd | tcmtool/mytcmtool/alg/bn_add.c:51-109 | abs(a) + abs(b) for any lengths and any aliasing |
| AddSub.Add | tcmtool/mytcmtool/alg/bn_add.c:8-48 | the signed sum, in any aliasing; zero comes out negative exactly when both operands are -0 |
| AddSub.Sub | tcmtool/mytcmtool/alg/bn_add.c:203-251 | the signed difference, in any aliasing; zero comes out negative exactly for -0 less 0 |
| Products.MulLong | tcmtool/mytcmtool/alg/bn_mul.c:602-664 | operands of 16 words or more, one of them possibly padded by a zero word: recursive or schoolbook, the words above top stay zero |
| Products.Mul | tcmtool/mytcmtool/alg/bn_mul.c:542-671 | the signed product by whichever routine is chosen, in any aliasing; zero is never negative |
| Products.SquareLength | tcmtool/mytcmtool/alg/bn_sqr.c:82-84 | a square has 2n or 2n-1 words, so dropping one zero word normalises it |
| Products.Sqr | tcmtool/mytcmtool/alg/bn_sqr.c:9-90 | the square by every path; the square of zero keeps the old sign of r, stated exactly |
| Shift.Lshift1 | tcmtool/mytcmtool/alg/bn_shift.c:7-37 | doubles the magnitude |
| Shift.Rshift1 | tcmtool/mytcmtool/alg/bn_shift.c:39-66 | halves the magnitude; a negative number that becomes zero stays marked negative |
| Shift.ShiftUp | tcmtool/mytcmtool/alg/bn_shift.c:87-92 | the descending loop multiplies by a power of two inside its buffer, in place or not |
| Shift.Lshift | tcmtool/mytcmtool/alg/bn_shift.c:68-98 | multiplies the magnitude by 2^n for every n, in place or not |
| Shift.ShiftDown | tcmtool/mytcmtool/alg/bn_shift.c:137-145 | the ascending loop divides by a power of two, in place or not |
| Shift.Rshift | tcmtool/mytcmtool/alg/bn_shift.c:100-149 | divides the magnitude by 2^n for every n, using the word beyond dmax; when the sign survives is stated exactly |
| WordOps.DivideByWord | tcmtool/mytcmtool/alg/bn_word.c:30-50 | leaves a / w in place and returns a mod w; by zero every word becomes BN_MASK2 and the lowest word is returned |
| WordOps.ModWord | tcmtool/mytcmtool/alg/bn_word.c:7-28 | computes ModWords: the residue of the number less its loss, which is the residue itself for w <= 2^16 and for powers of two |
| WordOps.ModWordRight | tcmtool/mytcmtool/alg/bn_word.c:7-28 | for w <= 2^16 and for powers of two the half-word steps give the residue of every number |
| WordOps.ModWordWrong | tcmtool/mytcmtool/alg/bn_word.c:7-28 | for every other w the shifted-out bits make the result wrong, for instance for 2^48 |
| WordOps.ModWordExact | tcmtool/mytcmtool/alg/bn_word.c:7-28 | BN_mod_word is right for all numbers if and only if w <= 2^16 or w is a power of two |
| WordOps.ModWordValue | tcmtool/mytcmtool/alg/bn_word.c:7-28 | for every number and modulus the result is the residue of the number less what the shifts drop |
| WordOps.RightForNumber | tcmtool/mytcmtool/alg/bn_word.c:7-28 | right for a number if and only if that loss is a multiple of w |
| WordOps.NothingLost | tcmtool/mytcmtool/alg/bn_word.c:7-28 | nothing is lost of one word, nor while the partial residues stay below 2^16 |
| WordOps.AddWord | tcmtool/mytcmtool/alg/bn_word.c:52-84 | adds a word to a signed number; BN_is_zero is right of the result, which is normalised except when 0 was added to 0, and a negative zero exactly for -0 + 0 |
| WordOps.SubWord | tcmtool/mytcmtool/alg/bn_word.c:86-123 | subtracts a word from a signed number; the result is a negative zero exactly for 0 - 0 |
| WordOps.MulWord | tcmtool/mytcmtool/alg/bn_word.c:125-145 | multiplies a signed number by a word |
| QuotientDigit.DivDigit | tcmtool/mytcmtool/alg/bn_div.c:214-279 | the refined digit is the exact quotient of the three leading words by the two leading words of the divisor; BN_MASK2 when the leading words agree |
| QuotientDigit.MaskDigit | tcmtool/mytcmtool/alg/bn_div.c:216-217 | the unrefined digit BN_MASK2 is never too small and at most one too large |
| QuotientDigit.LeadingDigit | tcmtool/mytcmtool/alg/bn_div.c:250-277 | the refined digit is never too small and at most one too large |
| QuotientDigit.OneWordDigit | tcmtool/mytcmtool/alg/bn_div.c:179-179 | with a one-word divisor the digit is exact |
| LongDivision.NextDigit | tcmtool/mytcmtool/alg/bn_div.c:214-279 | from the words of the window: the digit is right or one too large |
| LongDivision.SubtractDigit | tcmtool/mytcmtool/alg/bn_div.c:281-299 | after at most one add-back the window is in [0, sdiv) and window*2^32 + next word = q*sdiv + new window |
| LongDivision.AddBack | tcmtool/mytcmtool/alg/bn_div.c:293-299 | adding the divisor to a window that is -v with 0 < v <= sdiv leaves sdiv - v |
| LongDivision.FirstDigit | tcmtool/mytcmtool/alg/bn_div.c:193-203 | the first digit is 0 or 1 |
| LongDivision.DivideWords | tcmtool/mytcmtool/alg/bn_div.c:193-302 | throughout, the dividend words from the window up equal window + digits so far * sdiv; the window stays below sdiv and nothing is left above it |
| Division.NormalisedTop | tcmtool/mytcmtool/alg/bn_div.c:157-160 | the normalising shift sets the top bit of the divisor |
| Division.DigitsNormalised | tcmtool/mytcmtool/alg/bn_div.c:187-203 | the stored quotient has no leading zero word, so res->top == 0 cannot occur |
| Division.QuotientFromDigits | tcmtool/mytcmtool/alg/bn_div.c:193-302 | the digits are those of the quotient and the last window is the shifted remainder |
| Division.Div | tcmtool/mytcmtool/alg/bn_div.c:122-313 | for every nonzero divisor dv*divisor + rm = num, truncated, rm with the sign of num, whenever dv is not num; in place exactly if the divisor is not negative, the dividend is smaller, or the remainder is 0; fails exactly for 0 |
| Division.SevenByMinusTwo | tcmtool/mytcmtool/alg/bn_div.c:122-313 | 7 divided in place by -2 gives -3 and -1, which do not make up 7 |
| Division.Mod | tcmtool/mytcmtool/alg/openssl/bn.h:252-252 | the truncated remainder alone |
| Division.Quotient | tcmtool/mytcmtool/alg/bn_div.c:122-318 | the truncated quotient alone, also into the dividend |
| Modular.NonNegative | tcmtool/mytcmtool/alg/bn_mod.c:14-25 | from the truncated to the non-negative residue, for either sign of the dividend |
| Modular.NNMod | tcmtool/mytcmtool/alg/bn_mod.c:14-25 | m mod abs(d) in [0, abs(d)) for every m and nonzero d except m = -0, which gives abs(d); in range if and only if m is not -0 |
| Modular.ModAdd | tcmtool/mytcmtool/alg/bn_mod.c:27-31 | (a + b) mod m for either sign of m, but abs(m) where both operands are -0; fails exactly for m = 0 |
| Modular.ModAddQuick | tcmtool/mytcmtool/alg/bn_mod.c:35-41 | for residues one subtraction gives (a + b) mod m |
| Modular.ModSub | tcmtool/mytcmtool/alg/bn_mod.c:43-47 | (a - b) mod m for either sign of m, but abs(m) for -0 less 0; fails exactly for m = 0 |
| Modular.ModSubQuick | tcmtool/mytcmtool/alg/bn_mod.c:51-57 | for residues one addition gives (a - b) mod m |
| Modular.ModMul | tcmtool/mytcmtool/alg/bn_mod.c:60-81 | (a * b) mod m except when a and b are the same zero and the temporary has a stale minus sign, which gives abs(m) |
| Modular.ModSqr | tcmtool/mytcmtool/alg/bn_mod.c:83-88 | a*a mod m; the result is never negative, but its zero keeps the old minus sign of r when a is 0 |
| Modular.ModLshift1 | tcmtool/mytcmtool/alg/bn_mod.c:90-94 | 2a mod m, but abs(m) for a = -0 |
| Modular.ModLshift1Quick | tcmtool/mytcmtool/alg/bn_mod.c:98-104 | for a residue one subtraction gives 2a mod m |
| Modular.ShiftPass | tcmtool/mytcmtool/alg/bn_mod.c:137-168 | one pass shifts by at least one bit, to less than 2m, and one subtraction restores a residue |
| Modular.ModLshiftQuick | tcmtool/mytcmtool/alg/bn_mod.c:129-171 | a * 2^n mod m for every residue a and every n; the failure branch is unreachable and n strictly falls |
| Modular.ModLshift | tcmtool/mytcmtool/alg/bn_mod.c:106-125 | a * 2^n mod m for either sign of m, but abs(m) for a = -0 |
| Inverse.EuclidStep | tcmtool/mytcmtool/alg/bn_gcd.c:190-252 | (A,B) := (B, A mod B), (X,Y,sign) := (D*X+Y, X, -sign) keeps -sign*X*a = B and sign*Y*a = A modulo n, and that common divisors of A and B divide a and n |
| Inverse.HalveLink | tcmtool/mytcmtool/alg/bn_gcd.c:75-80 | halving X, made even by adding n when odd, keeps the congruence for a halved B |
| Inverse.SubtractFromB | tcmtool/mytcmtool/alg/bn_gcd.c:118-124 | B := B - A, X := X + Y keeps the invariant |
| Inverse.SubtractFromA | tcmtool/mytcmtool/alg/bn_gcd.c:126-131 | A := A - B, Y := Y + X keeps the invariant |
| Inverse.Outcome | tcmtool/mytcmtool/alg/bn_gcd.c:256-286 | when B is 0, A = 1 if and only if a and n are coprime, and then y is an inverse |
| Inverse.RemoveTwos | tcmtool/mytcmtool/alg/bn_gcd.c:70-84 | divides B by its largest power of two and X by the same modulo n |
| Inverse.BinaryLoop | tcmtool/mytcmtool/alg/bn_gcd.c:58-133 | the binary branch ends, A + B falling, with B = 0 and the invariant intact |
| Inverse.QuotientStep | tcmtool/mytcmtool/alg/bn_gcd.c:149-188 | the shortcuts for quotients 1, 2 and 3 and the division give A = D*B + M with 0 <= M < B |
| Inverse.MultiplyAdd | tcmtool/mytcmtool/alg/bn_gcd.c:222-247 | D*X + Y by every shortcut |
| Inverse.EuclidLoop | tcmtool/mytcmtool/alg/bn_gcd.c:139-253 | the Euclidean branch ends, B falling, with B = 0 and the invariant intact, the five objects passed round |
| Inverse.ModInverse | tcmtool/mytcmtool/alg/bn_gcd.c:7-292 | succeeds if and only if n is nonzero and coprime to a, and then 0 <= x < abs(n) and a*x = 1 (mod abs(n)), by either branch; otherwise the result is untouched |
| Residues.CancelPower | tcmtool/mytcmtool/alg/bn_mont.c:60-63 | powers of two cancel in congruences modulo an odd number |
| Montgomery.MontCtx.constructor | tcmtool/mytcmtool/alg/bn_mont.c:249-256 | an empty context: N and RR are zero and ri is 0 |
| Montgomery.LowestWord | tcmtool/mytcmtool/alg/bn_mont.c:162-162 | the factor rp[0]*n0 makes the lowest word of the pass zero |
| Montgomery.CarryFits | tcmtool/mytcmtool/alg/bn_mont.c:123-173 | the carry of a pass always finds room inside nl+al+1 words |
| Montgomery.ReductionPass | tcmtool/mytcmtool/alg/bn_mont.c:146-174 | each pass adds a multiple of N that zeroes one more low word |
| Montgomery.HighPart | tcmtool/mytcmtool/alg/bn_mont.c:146-175 | after all passes the words above R are (a + k*N)/R, below 2N |
| Montgomery.FromMontgomery | tcmtool/mytcmtool/alg/bn_mont.c:99-235 | for abs(a) < N*R the result is below N and times R congruent to abs(a); one subtraction is enough, and the result is negative exactly when a was and no subtraction took place; an empty context leaves the result untouched |
| Montgomery.ReductionUnique | tcmtool/mytcmtool/alg/bn_mont.c:99-235 | only one t in [0, N) has t*R = a (mod N) |
| Montgomery.FormProduct | tcmtool/mytcmtool/alg/bn_mont.c:72-97 | a Montgomery product of two forms is the form of the product |
| Montgomery.FormIn | tcmtool/mytcmtool/alg/openssl/bn.h:333-334 | multiplying by RR gives the Montgomery form |
| Montgomery.FormOut | tcmtool/mytcmtool/alg/bn_mont.c:99-235 | to-Montgomery followed by from-Montgomery is the residue, so the identity on [0, N) |
| Montgomery.ModMulMontgomery | tcmtool/mytcmtool/alg/bn_mont.c:72-97 | r*R = a*b (mod N) on magnitudes with r below N, for abs(a*b) < N*R; the sign of r is stated exactly, that left over in the temporary included |
| Montgomery.OddIsCoprime | tcmtool/mytcmtool/alg/bn_mont.c:287-296 | a word is coprime to 2^32 if and only if it is odd |
| Montgomery.N0Is | tcmtool/mytcmtool/alg/bn_mont.c:297-310 | the computed word satisfies N*n0 = -1 (mod 2^32), including N mod 2^32 = 1 where the inverse is 0 |
| Montgomery.ComputeN0 | tcmtool/mytcmtool/alg/bn_mont.c:287-311 | the inverse modulo the word size exists if and only if the lowest word is odd |
| Montgomery.MontCtxSet | tcmtool/mytcmtool/alg/bn_mont.c:270-336 | succeeds if and only if the modulus is odd, and then N*n0 = -1 (mod 2^32) and RR = R^2 mod N |
| Montgomery.ToMontgomery | tcmtool/mytcmtool/alg/openssl/bn.h:333-334 | the Montgomery form of every a < R, reduced or not |
| Montgomery.ThroughForm | tcmtool/mytcmtool/alg/bn_mont.c:99-235 | both conversions one after the other give a mod N, so a itself below N |
| Reciprocal.RecpCtx.constructor | tcmtool/mytcmtool/alg/bn_recp.c:63-69 | an empty context: N, Nr and num_bits are zero; shift is not set, in the code as here |
| Reciprocal.RecpCtxSet | tcmtool/mytcmtool/alg/bn_recp.c:94-101 | stores the divisor and its length; shift = 0 and Nr = 0 forget the reciprocal |
| Reciprocal.ReciprocalOf | tcmtool/mytcmtool/alg/bn_recp.c:214-230 | floor(2^len / abs(m)) with the sign of m, or -1 and no change for m = 0 |
| Reciprocal.EstimateBounds | tcmtool/mytcmtool/alg/bn_recp.c:173-181 | the estimate is never above floor(m/N) and at most 3 below it |
| Reciprocal.Correct | tcmtool/mytcmtool/alg/bn_recp.c:188-198 | at most three subtractions are needed: "bad reciprocal" is reached for N = 0 only |
| Reciprocal.Refresh | tcmtool/mytcmtool/alg/bn_recp.c:167-171 | shift != 0 implies Nr = floor(2^shift / N), kept whether or not the reciprocal is recomputed |
| Reciprocal.DivRecp | tcmtool/mytcmtool/alg/bn_recp.c:129-207 | the same quotient and remainder as BN_div, for every nonzero N and any cached state; fails exactly for N = 0; dv*N + rem = m holds exactly unless the remainder replaces a negative dividend not below N |
| Reciprocal.MinusSevenByTwo | tcmtool/mytcmtool/alg/bn_recp.c:129-207 | -7 divided by 2 with the remainder in place gives 3 and 1, which do not make up -7 |
| Reciprocal.ModMulReciprocal | tcmtool/mytcmtool/alg/bn_recp.c:103-127 | abs(x*y) mod N with the sign of the product, or for a zero square the sign left over in the temporary |
| Windows.WindowBits | tcmtool/mytcmtool/alg/openssl/bn_lcl.h:26-30 | the window has 1 to 6 bits |
| Windows.WindowCheapest | tcmtool/mytcmtool/alg/openssl/bn_lcl.h:26-30 | the thresholds are those at which the next window becomes the cheapest in expected multiplications |
| Windows.ScanWindow | tcmtool/mytcmtool/alg/bn_exp.c:306-322 | the scanned bits have value wvalue, odd and below 2^window, and end in a set bit |
| Windows.TableIndex | tcmtool/mytcmtool/alg/bn_exp.c:334-335 | wvalue >> 1 is inside the table, which never exceeds TABLE_SIZE |
| Windows.PowerTimes | tcmtool/mytcmtool/alg/bn_exp.c:298-336 | multiplying accumulators adds exponents |
| RecpExp.RecpTable | tcmtool/mytcmtool/alg/bn_exp.c:271-284 | entry i of the table is a^(2i+1) mod N |
| RecpExp.RecpStep | tcmtool/mytcmtool/alg/bn_exp.c:295-343 | one turn of the loop: the accumulator is a to the longer prefix of p |
| RecpExp.ModExpRecp | tcmtool/mytcmtool/alg/bn_exp.c:228-351 | a^p mod abs(m) for every nonzero p and m, r possibly being a or m; 1 for p = 0 |
| SimpleExp.SimpleTable | tcmtool/mytcmtool/alg/bn_exp.c:667-680 | entry i of the table is a^(2i+1) mod m |
| SimpleExp.ModExpSimple | tcmtool/mytcmtool/alg/bn_exp.c:638-746 | a^p mod abs(m) for every nonzero p and m; 1 for p = 0 |
| MontExp.MontTable | tcmtool/mytcmtool/alg/bn_exp.c:413-425 | entry i of the table is the Montgomery form of a^(2i+1) |
| MontExp.MontStep | tcmtool/mytcmtool/alg/bn_exp.c:435-485 | one turn of the loop: the accumulator is the form of a to the longer prefix of p |
| MontExp.FormResult | tcmtool/mytcmtool/alg/bn_exp.c:486-486 | converting the accumulator back gives the power |
| MontExp.ModExpMont | tcmtool/mytcmtool/alg/bn_exp.c:354-494 | a^p mod abs(m) for every odd m and nonzero p, results and operands in any aliasing; fails for even m; 1 for p = 0; for m = p = 0 the stale lowest word of m decides |
| MontWordExp.OverflowTest | tcmtool/mytcmtool/alg/bn_exp.c:566-568 | next_w/w != w holds exactly when w*w does not fit in a word |
| MontWordExp.WordToForm | tcmtool/mytcmtool/alg/bn_exp.c:517-518 | a word at or above the modulus still meets the condition of the reduction |
| MontWordExp.ModMulWord | tcmtool/mytcmtool/alg/bn_exp.c:505-508 | r becomes the form of x*w, reduced, by way of the swapped temporary |
| MontWordExp.SquareDeferred | tcmtool/mytcmtool/alg/bn_exp.c:565-584 | squaring r*w keeps r*w = a^(2e), w nonzero, whether or not w*w overflows |
| MontWordExp.TimesBase | tcmtool/mytcmtool/alg/bn_exp.c:586-604 | multiplying by a keeps r*w = a^(e+1), w nonzero |
| MontWordExp.WordLoop | tcmtool/mytcmtool/alg/bn_exp.c:561-605 | r*w is a to the prefix of p scanned so far |
| MontWordExp.ModExpMontWord | tcmtool/mytcmtool/alg/bn_exp.c:496-634 | a^p mod abs(m) for every word a, odd m and nonzero p; fails for even m; 1 for p = 0 |
| Exponentiation.Exp | tcmtool/mytcmtool/alg/bn_exp.c:119-151 | the exact power, r possibly being a or p; a negative zero comes out only of -0 to the first power |
| Exponentiation.ModExp | tcmtool/mytcmtool/alg/bn_exp.c:154-225 | whichever exponentiator is chosen, a^p mod abs(m), never marked negative, for nonzero p and m; fails only for m = 0 and p nonzero |
| Exponentiation.ZeroExponent | tcmtool/mytcmtool/alg/bn_exp.c:237-243 | the result 1 for p = 0 is a^0 mod m if and only if m > 1 |
| Symbols.JacobiZero | tcmtool/mytcmtool/alg/bn_kron.c:139-174 | steps 3 and 4 give -1, 0 or 1, and 0 if and only if the numbers are not coprime |
| Symbols.SymbolZero | tcmtool/mytcmtool/alg/bn_kron.c:93-182 | the symbol of any two signed numbers is -1, 0 or 1, and 0 if and only if they are not coprime |
| Symbols.SupplementaryLaws | tcmtool/mytcmtool/alg/bn_kron.c:69-75 | (1/n) = 1, and (-1/n) and (2/n) by n modulo 4 and 8 |
| Kronecker.RemoveFactors | tcmtool/mytcmtool/alg/bn_kron.c:110-113 | takes out and counts all factors 2 |
| Kronecker.SignBitsAre | tcmtool/mytcmtool/alg/bn_kron.c:164-167 | the bit test on the lowest words, complemented for a negative A, is the sign of quadratic reciprocity |
| Kronecker.JacobiPass | tcmtool/mytcmtool/alg/bn_kron.c:145-174 | one pass keeps ret * (A/B), and abs(A) strictly falls |
| Kronecker.KroneckerOf | tcmtool/mytcmtool/alg/bn_kron.c:63-182 | returns the Kronecker symbol: 0 for a common divisor, else made of the Legendre symbols of the prime factors of b, (a/2) and the signs, over all signed a and b; the sign for a = -0 and negative b is stated |
| HalfSystem.GaussProduct | tcmtool/mytcmtool/alg/bn_kron.c:136-137 | the parity of the multiples of a in the upper half modulo n is multiplicative in a, for every odd n |
| QuadraticReciprocity.GaussReciprocity | tcmtool/mytcmtool/alg/bn_kron.c:164-167 | quadratic reciprocity for that parity, for odd coprime m and n |
| Legendre.GaussPower | tcmtool/mytcmtool/alg/bn_kron.c:136-137 | for an odd prime p it is a^((p-1)/2) (mod p) |
| Legendre.Wilson | tcmtool/mytcmtool/alg/bn_kron.c:136-137 | (p-1)! = -1 (mod p) |
| Legendre.GaussIsLegendre | tcmtool/mytcmtool/alg/bn_kron.c:136-137 | for an odd prime it is 1 exactly for the squares |
| JacobiTheory.JacobiIsGauss | tcmtool/mytcmtool/alg/bn_kron.c:139-174 | steps 3 and 4 compute that parity for every odd n and every a coprime to it |
| JacobiTheory.JacobiReciprocity | tcmtool/mytcmtool/alg/bn_kron.c:164-167 | (m/n)(n/m) = (-1)^((m-1)/2 (n-1)/2) for what the steps compute |
| JacobiTheory.SymbolReciprocity | tcmtool/mytcmtool/alg/bn_kron.c:93-182 | the same for the symbol of the whole function |
| JacobiTheory.JacobiCong | tcmtool/mytcmtool/alg/bn_kron.c:169-171 | (a/n) depends on a modulo n only |
| JacobiTheory.JacobiProduct | tcmtool/mytcmtool/alg/bn_kron.c:139-174 | (ab/n) = (a/n)(b/n), with no condition on a and b |
| JacobiTheory.JacobiModulus | tcmtool/mytcmtool/alg/bn_kron.c:139-174 | (a/mn) = (a/m)(a/n) |
| JacobiTheory.JacobiIsLegendre | tcmtool/mytcmtool/alg/bn_kron.c:136-137 | for an odd prime: 0 for its multiples, 1 for other squares, -1 for what is no square |
| JacobiTheory.JacobiIs | tcmtool/mytcmtool/alg/bn_kron.c:136-174 | the Jacobi symbol: the product of the Legendre symbols of the prime factors of n |
| JacobiTheory.SymbolIsKronecker | tcmtool/mytcmtool/alg/bn_kron.c:88-182 | the algorithm computes the Kronecker symbol of any two signed numbers |
| Context.FrameRestores | tcmtool/mytcmtool/alg/bn_ctx.c:83-96 | over every well-nested run BN_CTX_end restores tos to its value at the matching start, also beyond 12 levels |
| Context.HeldDistinct | tcmtool/mytcmtool/alg/bn_ctx.c:64-81 | what a run holds is consecutive and above all that was handed out before |
| Context.OpenDistinct | tcmtool/mytcmtool/alg/bn_ctx.c:57-96 | the temporaries held in all open frames together are pairwise distinct and new since the outermost start |
| Context.OpenConsecutive | tcmtool/mytcmtool/alg/bn_ctx.c:57-96 | what all open frames hold is consecutive, from the outermost start up to tos |
| Context.FailureSticks | tcmtool/mytcmtool/alg/bn_ctx.c:66-70 | once a get has failed every get fails until an end |
| PoolUse.GrantedExactly | tcmtool/mytcmtool/alg/bn_ctx.c:57-97 | no get of a run fails if and only if its frames and temporaries fit on top of those in use |
| PoolUse.BodyFits | tcmtool/mytcmtool/alg/bn_ctx.c:57-97 | what a routine and the calls below it take never exceeds the tables Need and Frames |
| PoolUse.NeverRefused | tcmtool/mytcmtool/alg/openssl/bn_lcl.h:13-22 | 14 free temporaries and 4 free frames are enough for every routine of the library, whatever it does; fewer for most |
| PoolUse.GreedyNeeds | tcmtool/mytcmtool/alg/bn_ctx.c:57-97 | the tables are exact for the calls as described |
| PoolUse.SafeExactly | tcmtool/mytcmtool/alg/bn_ctx.c:57-97 | a routine is safe from refusal in all it may do if and only if Need and Frames fit |
| PoolUse.NewPoolIsEnough | tcmtool/mytcmtool/alg/openssl/bn_lcl.h:13-22 | from a new pool no get of any routine fails |
| Context.Ctx.Start | tcmtool/mytcmtool/alg/bn_ctx.c:57-62 | follows the state machine |
| Context.Ctx.Get | tcmtool/mytcmtool/alg/bn_ctx.c:64-81 | follows the state machine; NULL exactly beyond 12 levels or 32 temporaries |
| Context.Ctx.End | tcmtool/mytcmtool/alg/bn_ctx.c:83-96 | follows the state machine, also at depth 0 |
| Bytes.Bin2Bn | tcmtool/mytcmtool/alg/bn_lib.c:537-572 | the big-endian value of the bytes; an empty string keeps the old sign |
| Bytes.Bn2Bin | tcmtool/mytcmtool/alg/bn_lib.c:575-587 | bytes of the magnitude with no leading zero |
| Bytes.BytesUnique | tcmtool/mytcmtool/alg/bn_lib.c:574-587 | bytes without leading zeros are determined by their value |
| Bytes.BinRoundTrip | tcmtool/mytcmtool/alg/bn_lib.c:537-587 | reading and writing bytes strips leading zeros and nothing else |
| Bytes.ThroughNumber | tcmtool/mytcmtool/alg/bn_lib.c:537-587 | reading and then writing: the bytes without leading zeros |
| Bytes.ThroughBytes | tcmtool/mytcmtool/alg/bn_lib.c:537-587 | writing and then reading: the same magnitude |
| Hex.Bn2Hex | tcmtool/mytcmtool/alg/bn_print.c:10-42 | a minus sign and the digits of the magnitude, two for every byte of it and "0" for zero; the text fits the allocated top*8+2 bytes if and only if the number is not -0 |
| Hex.DigitTable | tcmtool/mytcmtool/alg/bn_print.c:85-88 | the value of a digit is its place in the row of digits, in either case |
| Hex.DigitCount | tcmtool/mytcmtool/alg/bn_print.c:24-36 | two digits for every byte of the magnitude, so no leading pair 00 |
| Hex.TextUnique | tcmtool/mytcmtool/alg/bn_print.c:10-42 | magnitude and sign determine the text |
| Hex.Hex2Bn | tcmtool/mytcmtool/alg/bn_print.c:44-108 | the value of the longest run of digits after an optional sign, and the count of characters used |
| Hex.HexAlphabet | tcmtool/mytcmtool/alg/bn_print.c:55-56 | the 22 characters taken for digits |
| Hex.CaseIgnored | tcmtool/mytcmtool/alg/bn_print.c:78-98 | upper and lower case have the same value |
| Hex.PrefixCaseIgnored | tcmtool/mytcmtool/alg/bn_print.c:44-108 | and the same digits are taken from a text in either case |
| Hex.HexRoundTrip | tcmtool/mytcmtool/alg/bn_print.c:10-108 | reading the text of any normalised number gives back magnitude and sign |
| Hex.ThroughHex | tcmtool/mytcmtool/alg/bn_print.c:10-108 | writing and then reading: the same number, the whole text used |
| NegativeZeros.HalvedMinusOne | tcmtool/mytcmtool/alg/bn_shift.c:39-66 | -1 halved is a normalised zero marked negative |
| NegativeZeros.ShiftedOrDivided | tcmtool/mytcmtool/alg/bn_shift.c:100-149 | BN_rshift and BN_div_word make such zeros too |
| NegativeZeros.SquaredZero | tcmtool/mytcmtool/alg/bn_sqr.c:9-22 | so do BN_sqr and BN_mod_sqr of zero into a negative number |
| NegativeZeros.ReadZero | tcmtool/mytcmtool/alg/bn_print.c:44-108 | so does BN_hex2bn of the texts "-" and "-0" |
| NegativeZeros.FullResidue | tcmtool/mytcmtool/alg/bn_mod.c:14-25 | modulo 5 it becomes 5 |
| NegativeZeros.FullSum | tcmtool/mytcmtool/alg/bn_mod.c:27-31 | the sum of two such zeros modulo 5 becomes 5 |
| NegativeZeros.FullDifference | tcmtool/mytcmtool/alg/bn_mod.c:43-47 | such a zero less zero modulo 5 becomes 5 |
| NegativeZeros.FullDouble | tcmtool/mytcmtool/alg/bn_mod.c:90-94 | its double modulo 5 becomes 5 |
| NegativeZeros.FullShift | tcmtool/mytcmtool/alg/bn_mod.c:106-125 | shifted modulo 5 it becomes 5 |
| NegativeZeros.FullProduct | tcmtool/mytcmtool/alg/bn_mod.c:60-81 | zero times itself modulo 5 becomes 5 when a minus sign is left over in the temporary |
| NegativeZeros.HexOverrun | tcmtool/mytcmtool/alg/bn_print.c:10-42 | its text and the closing zero do not fit the allocated buffer |
| NegativeZeros.BelowZero | tcmtool/mytcmtool/alg/bn_lib.c:611-650 | it compares below zero |
| NegativeZeros.KroneckerSigns | tcmtool/mytcmtool/alg/bn_kron.c:129-134 | (0/-1) is 1, but -1 is returned for it |

## Left out

- The kernel drivers, device wrappers, TrouSerS headers, key utilities and the user interface: thin layers, or dependent on hardware and sources that are not part of this model.
- The users of the library in the same directory: BN_mod_sqrt (random trial values, and correctness only for primes), the elliptic-curve operations, the SCH hash and the SMS4 cipher.
- Allocation failure: every allocation succeeds, so the returns that report its failure are not modelled; nor are freeing, clearing and running time.
- bn_mul_part_recursive, bn_mul_high, bn_mul_low_recursive: BN_mul does not call them in this configuration.
- Preprocessor alternatives: inline assembly, BN_LLONG, 64-, 16- and 8-bit words, TANDEM, the bit-by-bit BN_div, the bignum version of Montgomery reduction.
- BN_dec2bn, BN_print, BN_mask_bits, BN_clear_bit, BN_swap, BN_dup, BN_MONT_CTX_copy and the BN_FLG_STATIC_DATA flag: easy members, or not used by what is modelled.
- BN_BLINDING, primes and random numbers: they rest on an external source of randomness.
- A Montgomery context set for another modulus than the one given, which no caller does, and BN_mod_mul_reciprocal with y NULL, which only reduces x and so is Reciprocal.DivRecp.
- Products.MulLong: does not model writing the padding zero into the spare word of the operand itself, because that operand is const for the caller; the padding is done in a copy.
- DivWord.DivWords: does not state the word returned for h >= 2d, where one subtraction does not bring h below d, because it is no digit of the quotient and no caller passes such an h.
- Context.Ctx.Get: the pool's temporaries are not wired into the arithmetic modules, which ask for a fresh temporary instead; that open frames never share one is Context.OpenDistinct, and that the pool is large enough is PoolUse.NewPoolIsEnough.
