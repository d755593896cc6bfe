# Verified model of polkadot_dart

A Dafny model of the arithmetic, codecs and stateful parts that polkadot_dart writes out in Dart: the
secp256k1 curve and ECDSA, the byte codecs (SCALE compact integers, base32, UTF-8 recognition, two's
complement), the lockable key pair with its encrypted container, the metadata upgrade chain, derivation
paths, multi-signature keys, and a few numeric helpers. `dafny verify dfyconfig.toml` checks everything.

A modelled function that loops is a Dafny loop, and the classes whose methods change state (`DartRandom`,
`CreatePairClass`, `MetadataVersioned`, `DeriveJunction`) are Dafny classes. Each is tied by its `ensures`
to a function or a relation; the lemmas then say what that function means. Classes that only carry
values are datatypes.

| file | models |
|---|---|
| Basics, Modular | bytes, thrown errors, list slices; divisibility and congruence |
| Inverse, Fermat, CurvePoints, Ecdsa, Compress, Radix | lib/crypto/curve.dart |
| AnyQuotient, Rounding | the same functions with the quotients a double may give, and where a double is enough |
| SmallCurve | a seven-point curve that meets the group hypothesis of Ecdsa |
| Utf8, Base32 | lib/utils/is.dart (`isUtf8`), lib/util_crypto/base32.dart |
| Numbers, Bn, Sqrt, Compact | lib/utils/number.dart, lib/utils/bn.dart, lib/utils/compact.dart |
| PairContainer, KeyPair | lib/keyring/pair.dart, lib/util_crypto/scrypt.dart |
| Metadata | lib/metadata/MetadataVersioned.dart |
| KeyPath, Sorting, Address | lib/util_crypto/key.dart, lib/utils/u8a.dart, lib/util_crypto/address.dart |
| Random, Time | lib/util_crypto/random.dart, lib/utils/time.dart |

## Conventions and hypotheses

- A Dart call that throws is a `Result` that is `Err`; a Dart `assert` counts as throwing. Null is `None`.
- A Dart `int` is a 64-bit word where a buffer overflows (base32, `BigInt.toInt`); a `BigInt` is an `int`.
- curve.dart:135 and bn.dart:139 divide two `BigInt`s through a double. Soundness of the inverse is proved
  for an arbitrary quotient at every step (`InverseAnyQuotient`), and module `AnyQuotient` carries it
  through additions, scalar multiples, signing and verifying: modulo primes, whatever they answer is what
  exact quotients give. That they answer at all is stated for exact quotients. Module `Rounding` shows
  that the double division is exact up to 2^53, from three properties of rounding to nearest (`Rounds`; `NoRounding` is an instance):
  `inverseMulti` as written then finds an inverse exactly of the coprime numbers, and `bnSqrt` as written
  is the root. Above that the difference is real: `RoundedQuotientsThrow` gives quotients, right to the
  precision of a double, on which the inverse of 5 modulo the order of secp256k1 ends in the throw.
- The curve group. `Group.Law` takes as given a family of points indexed by the integers modulo an odd
  prime n, on which `addSamePoint` doubles the index of a point and `addDiffPoint` adds two indices that
  are neither equal nor opposite, with equal abscissas exactly for equal or opposite indices. This is
  where associativity of the curve group is assumed. `SmallLaw` exhibits a curve and a family that
  satisfy it, `SmallSignature` a signature on it. What needs no associativity (closure, the exact failure
  condition of each addition) is proved from the formulas for every prime.
- Primality of p and n is a hypothesis (`IsPrime`), not proved of the concrete constants.
- scrypt, the box, hashes, base58, string-to-UTF-8 and the functions per key type are arbitrary
  functions. Where a result needs more it says so: `Primitives.Faithful` (opening undoes sealing, scrypt
  gives at least 32 bytes), `Primitives.Authentic` (another key opens a box to nothing or to the same
  message), `Codec.Sound` (base58 is a bijection onto the strings it decodes and never writes the
  character 0; a 512-bit hash has 64 bytes), `Library.Sound` (the hash has 32 bytes), `Address.Injective`
  (the 256-bit hash has no collisions; only for the converse in `KeyDetermines` and `MultiKeyDetermines`).
- Random bytes, salts, nonces and drawn integers are parameters or an arbitrary stream.

## Where the code surprises

- `curveVerify` throws, instead of answering, exactly when the hash is a multiple of n or e + r*d is;
  so a signature of a hash that is 0 modulo n is never verified (`VerifyExact`, `SignedIsVerified`;
  `ZeroHashThrows` exhibits one).
- The range test of `sign` is k < n - 1, so the nonce n - 1 is never used.
- `getPointByBig` reads the minus sign of a negative scalar as a digit: the answer for -m is m times the
  point (`PointByBigNegative`).
- `hex2PointFromCompress` returns y = p exactly for the odd tag when x^3 + 7 is 0 modulo p
  (`AbscissaExact`, `OutOfRange`); a group of odd order has no such point (`OrdinateNonzero`). It accepts an abscissa outside [0, p) and
  returns it unreduced (`DecompressExact`), and strings that compressing does not give back
  (`RecompressExact`).
- `bnSqrt(4)` is 1: the test `x0 == x1 - 1` stops at the first iterate (`SqrtExact`).
- `bnToU8a` with `isNegative` writes -v for a positive v whose bit 7 is set (`BnToU8a`).
- The default width of `bnToU8a` leaves no room for the sign: -200 gets one byte, the one 56 gets (`ByteLengthExact`).
- Thresholds that differ by 65536 give the same multi-signature key (`KeyDetermines`).
- A compact integer of 2^536 or more is encoded with a length that does not fit its prefix byte and does
  not read back (`RoundTrip`). A negative one becomes a single byte (`NegativeMisread`).
- `compactFromU8a` reads bytes that are missing at the end of its input as zeros, and reports an offset past
  that end (`TruncatedInput`); it also accepts values in a larger mode than needed (`CanonicalExact`).
- `getRandomValues` always has the requested length, but its digits start with those of the extra draw unless
  that is zero, and as many digits of the drawn bytes are cut off the end; with four or more unused
  leading bits the extra draw is their count and never zero (`DrawDigits`). So the drawn bytes come out
  exactly when the extra draw is zero, or is 1, 2 or 3 and every drawn byte repeats it as 0x11, 0x22 or
  0x33 (`DrawnBytesExact`; `DrawnByteLost` and `RepeatedByteKept` are instances).
- The container holds 32 bytes of public key. `decodePair` alone returns the 33-byte key of an ecdsa or
  ethereum pair cut to 32 bytes; the pair itself expands the 32-byte secret again (`PairRoundTrip`,
  `EncodeLockDecode`).
- The container of a 32-byte secret does not parse back when bytes 27 to 31 of the public key equal the
  divider (`SeedContainerExact`, `DividerInKey`). A pair with such a key encodes, and once locked it
  stays locked whatever is done with its own container (`LostPairStaysLocked`).
- Encoding without a passphrase makes the stored types null, which stand for an encrypted container: once
  locked, the pair does not decode its own plain container again (`PlainEncodeStaysLocked`,
  `PlainRunStaysLocked`).
- `updateMeta` called before the metadata is first read replaces the raw value (`UpdateMeta`).
- The documentation comment at pair.dart:394-398 says that decoding changes the address of the pair. The
  code does not: address and exposed public key are set once, while the signing keys are those of the last
  container that was opened (`ExposedNeverChange`, `SignsWithLastOpened`).
- `u8aSorted` throws on two lists one of which is a prefix of the other, equal lists included: the null
  tests at u8a.dart:76-82 are never reached, since reading past the end of a list throws first.
- A lone slash is no path, but written before a soft step it makes the step hard (`LoneSlash`).
- `keyExtractPath` also rejects an all-digit name above 2^63 - 1, because `int.parse` throws.

## Model

| member | source | states |
|---|---|---|
| Inverse.PositiveModIsMod | lib/crypto/curve.dart:112-114 | the double reduction is the mathematical remainder for operands of either sign |
| Inverse.AdvanceKeepsBezout | lib/crypto/curve.dart:137-147 | one turn of the loop keeps both rows Bezout combinations of x and the modulus, for any quotient |
| Inverse.InverseAnyQuotient | lib/crypto/curve.dart:116-149 | whatever quotient the double division yields at each step, a returned value times x is 1 modulo m |
| Inverse.RoundedQuotientsThrow | lib/crypto/curve.dart:129-136 | 5 is invertible modulo the order of secp256k1 and found by exact quotients, and quotients right to the precision of a double lead to the throw |
| Inverse.InverseMulti | lib/crypto/curve.dart:116-149 | with exact quotients the loop terminates, and a returned value times x is 1 modulo m |
| Inverse.InverseExact | lib/crypto/curve.dart:130-135 | for m > 1 it throws exactly when x and m share a factor, and the answer is below m in absolute value |
| Inverse.NoInverseModuloOne | lib/crypto/curve.dart:130-132 | modulo 1 it always throws |
| Inverse.PrimeInverse | lib/crypto/curve.dart:116-149 | modulo a prime every non-multiple has an inverse that is found |
| Inverse.EuclidLemma | lib/crypto/curve.dart:116-149 | a prime dividing a product divides a factor, derived from the inverse the loop finds |
| Fermat.FermatLittle | lib/crypto/curve.dart:75-78 | a^(p-1) = 1 modulo a prime p not dividing a |
| Fermat.RootOfSquare | lib/crypto/curve.dart:75-78 | for p = 3 modulo 4 the (p+1)/4 power of a square is one of its roots |
| Fermat.RootsUpToSign | lib/crypto/curve.dart:80-88 | modulo a prime a number has at most the roots y and -y |
| CurvePoints.AddSamePointClosed | lib/crypto/curve.dart:169-175 | with exact quotients, doubling an on-curve point succeeds iff p does not divide y, and gives the reflected third intersection of the tangent, on the curve and with coordinates in [0, p) |
| CurvePoints.AddDiffPointClosed | lib/crypto/curve.dart:177-182 | with exact quotients, adding two on-curve points succeeds iff their abscissas differ modulo p, and gives the reflected third intersection of the chord, on the curve and in [0, p) |
| CurvePoints.TangentOnCurve | lib/crypto/curve.dart:169-175 | the tangent meets the curve again at the computed abscissa |
| CurvePoints.ChordOnCurve | lib/crypto/curve.dart:177-182 | the chord meets the curve again at the computed abscissa |
| Radix.ValueOfToRadix | lib/crypto/curve.dart:185-185 | the digits of n in a base denote n |
| Radix.PaddedParses | lib/crypto/curve.dart:105-105 | parsing the left-padded digits of n gives n |
| Radix.DigitTable | lib/crypto/curve.dart:58-106 | the sixteen digits written are 0 to 9 and a to f in this order; those read are these and the capitals A to F |
| Radix.ParseIgnoresCase | lib/crypto/curve.dart:66-73 | a text parses as the same text with its capital digits made small |
| Radix.ParseSkipsSpace | lib/crypto/curve.dart:66-73 | white space before and after a text does not change what it parses to |
| Ecdsa.GetPointByBig | lib/crypto/curve.dart:184-201 | the loop over the binary digits computes the specification function for every scalar and point, exceptions included |
| Ecdsa.ScanExact | lib/crypto/curve.dart:188-198 | with exact quotients, after j digits of value r the accumulator is r*P and the running point 2^j*P, and no addition or doubling on the way throws, the unused last doubling included |
| Ecdsa.PointByBigExact | lib/crypto/curve.dart:184-201 | with exact quotients, for 0 <= m < n the result is m*P for every P in the group, null for m = 0 |
| Ecdsa.PointByBigNegative | lib/crypto/curve.dart:184-201 | with exact quotients, for 0 < m < n the answer for -m is m*P |
| Ecdsa.Sign | lib/crypto/curve.dart:204-236 | the retry loop over the drawn nonces computes the specification function, exceptions included; `SignsWithFirstUsable` says what that is |
| Ecdsa.SignWithExact | lib/crypto/curve.dart:210-234 | with exact quotients, for every k a turn never throws and signs iff 1 <= k < n - 1, n does not divide x(kG), nor e + (x(kG) mod n)*d; then r = x(kG) mod n, k*s = e + r*d modulo n, both in [1, n), and the recovery bits tell the parity of y and a reduced abscissa |
| Ecdsa.SignsWithFirstUsable | lib/crypto/curve.dart:209-235 | with exact quotients, the answer is the signature for the first nonce of the stream that meets this condition |
| Ecdsa.NoUsableNonce | lib/crypto/curve.dart:209-235 | with exact quotients, when no nonce meets it, nothing is answered |
| Ecdsa.IndexSolves | lib/crypto/curve.dart:250-256 | the multiple of G that verification forms is, modulo n, the solution k of k*s = e + r*d |
| Ecdsa.VerifyExact | lib/crypto/curve.dart:238-271 | with exact quotients, the answer for every r, s and hash: false out of range, an exception iff n divides e or e + r*d, otherwise whether the abscissa of ((e + r*d)/s)*G is r modulo n |
| Ecdsa.AddChoice | lib/crypto/curve.dart:258-262 | with exact quotients, the choice between doubling and adding throws exactly on opposite points and otherwise adds indices |
| Ecdsa.OrdinateNonzero | lib/crypto/curve.dart:169-175 | no point of a group of odd order has an ordinate that is 0 modulo p |
| Ecdsa.SignedIsVerified | lib/crypto/curve.dart:204-271 | with exact quotients, every signature for a nonce in [1, n) verifies under d*G iff n does not divide the hash; otherwise verification throws |
| Ecdsa.SignThenVerify | lib/crypto/curve.dart:184-271 | with exact quotients, for any stream of nonces `sign` does not throw, answers iff some nonce is usable, and what it answers is accepted with the public key `getPointByBig` derives from d |
| AnyQuotient.InverterAgrees | lib/crypto/curve.dart:116-149 | modulo a prime, an inverse found with any quotients exists for exact ones, and its products have the same residues |
| AnyQuotient.AdditionsAgree | lib/crypto/curve.dart:169-182 | with any quotients, a doubling or addition that returns gives the point of exact ones |
| AnyQuotient.ScanAgrees | lib/crypto/curve.dart:184-201 | so does the whole double-and-add loop |
| AnyQuotient.SignAgrees | lib/crypto/curve.dart:209-234 | so does a turn of `sign`, including whether the nonce is rejected |
| AnyQuotient.VerifyAgrees | lib/crypto/curve.dart:238-271 | an answer of `curveVerify` with any quotients is the exact answer |
| AnyQuotient.SignedIsNotRefused | lib/crypto/curve.dart:204-271 | signing and verifying with any quotients: a signature that comes out is never answered with false, nor answered at all for a hash that is 0 modulo n |
| AnyQuotient.ExactByLoop | lib/crypto/curve.dart:116-149 | exact quotients are one instance of any quotients |
| AnyQuotient.AdditionsExact | lib/crypto/curve.dart:169-182 | where inverses modulo p are found as with exact quotients, so are sums and doublings, failures included |
| AnyQuotient.SignIsExact | lib/crypto/curve.dart:209-234 | where that holds modulo n and p, a turn of `sign` succeeds, fails and answers as with exact quotients |
| AnyQuotient.VerifyIsExact | lib/crypto/curve.dart:238-271 | and so does `curveVerify` |
| Rounding.QuotientExact | lib/crypto/curve.dart:135-135 | for 0 <= a <= 2^53 and 0 < b <= 2^53 the quotient through a double, cut to an integer, is the exact one |
| Rounding.InverseMultiDouble | lib/crypto/curve.dart:116-149 | `inverseMulti` with its double division, modulo m up to 2^53: it terminates and finds an inverse iff x and m are coprime |
| Rounding.NewtonIterationDouble | lib/utils/bn.dart:138-144 | with its double division the iteration ends and gives the result of exact quotients for n up to 2^53 |
| Rounding.BnSqrtDouble | lib/utils/bn.dart:134-144 | `bnSqrt` with its double division gives the integer square root for n up to 2^53 iff n >= 0 and n is not 4 |
| SmallCurve.SmallLaw | lib/crypto/curve.dart:6-14 | the group hypothesis holds of the same equation y^2 = x^3 + 7 over 13 elements, with its 7 points |
| SmallCurve.SmallSignature | lib/crypto/curve.dart:204-271 | on that curve a concrete private key, hash and nonce sign and verify, so the hypotheses of the signing results can be met |
| SmallCurve.ZeroHashThrows | lib/crypto/curve.dart:204-271 | the same key and nonce sign the hash 0, and verifying that signature throws |
| Compress.FieldConstant | lib/crypto/curve.dart:7-7 | the field constant meets the arithmetic conditions asked of p: above 7, 3 modulo 4, at most 64 hexadecimal digits |
| Compress.RootByParity | lib/crypto/curve.dart:85-88 | of the two roots in range the parity bit selects the right one |
| Compress.CompressRoundTrip | lib/crypto/curve.dart:58-106 | for every prime p = 3 modulo 4 of at most 64 hexadecimal digits and above 7, decompressing the compressed form of an on-curve point in range gives the point |
| Compress.DecompressExact | lib/crypto/curve.dart:58-94 | accepted iff 66 characters, a tag of 2 or 3, and a parsed abscissa with x^3 + 7 a square; the result is on the curve, has the tagged parity, and is in range iff the abscissa is, except for the odd tag when x^3 + 7 is 0 modulo p |
| Compress.CaseIgnored | lib/crypto/curve.dart:58-73 | capital hexadecimal digits are read as small ones |
| Compress.RecompressExact | lib/crypto/curve.dart:58-106 | compressing an accepted string's point gives the string back iff it has lower-case digits only, or a minus sign and 63 of them without a leading zero |
| Compress.OutOfRange | lib/crypto/curve.dart:58-106 | modulo 11 a string with tag +3 and abscissa 5 decompresses to the ordinate 11, and compressing does not give it back |
| Compress.AbscissaExact | lib/crypto/curve.dart:73-93 | an ordinate is found iff x^3 + 7 is a square modulo p, and it is p itself iff that is 0 modulo p and the tag is odd |
| Utf8.IsUtf8 | lib/utils/is.dart:113-299 | true iff the bytes are the RFC 3629 encoding of some sequence of scalar values: no surrogates, overlong forms or values above 10FFFF |
| Utf8.AcceptsExact | lib/utils/is.dart:117-296 | the case split on lead and continuation bytes is exactly the image of the encoder |
| Utf8.EncodeInjective | lib/utils/is.dart:104-299 | accepted bytes encode exactly one sequence |
| Utf8.AcceptsConcat | lib/utils/is.dart:117-296 | after an accepted prefix the whole is accepted iff the rest is |
| Base32.Base32Encode | lib/util_crypto/base32.dart:62-83 | the text's bits are the input's bits and fewer than five zeros, for inputs of any length although the 64-bit buffer overflows |
| Base32.AlphabetText | lib/util_crypto/base32.dart:6-6 | the alphabet is a to z followed by 2 to 7 |
| Base32.EncodeLoop | lib/util_crypto/base32.dart:68-76 | bits read are bits written followed by at most five pending bits of the buffer |
| Base32.Decode | lib/util_crypto/base32.dart:28-44 | bits of the symbols are the bits of the filled output followed by fewer than eight pending bits |
| Base32.Base32Decode | lib/util_crypto/base32.dart:46-60 | accepts exactly the texts of byte strings (after the ipfs character when asked) and returns the bytes of that text |
| Base32.LowBitsShiftIn | lib/util_crypto/base32.dart:34-34 | the wrapping 64-bit shift keeps every pending bit and appends the new ones |
| Base32.ShiftInIsOr | lib/util_crypto/base32.dart:34-34 | the sum that stands for the bitwise or has exactly the 64 bits of the or |
| Base32.ShiftInRange | lib/util_crypto/base32.dart:34-34 | and stays in the signed 64-bit range |
| Base32.LeftoverTest | lib/util_crypto/base32.dart:56-57 | the final mask test is true iff all pending bits are zero |
| Base32.TextBijection | lib/util_crypto/base32.dart:28-83 | texts and byte strings determine each other and a text has ceil(8n/5) symbols |
| Base32.EncodeThenDecode | lib/util_crypto/base32.dart:46-83 | decoding the encoding of any byte string gives it back |
| Base32.DecodeThenEncode | lib/util_crypto/base32.dart:46-83 | encoding what was decoded gives back every accepted text, with and without the ipfs character |
| Numbers.DecodeBigInt | lib/utils/number.dart:5-11 | the loop gives the value of the bytes in either byte order |
| Numbers.EncodeBigInt | lib/utils/number.dart:13-23 | the loop writes the low bytes in two's complement, in either byte order, for negative numbers too |
| Numbers.NumberRoundTrip | lib/utils/number.dart:5-23 | decoding the n-byte encoding of any integer v gives v modulo 256^n |
| Numbers.BytesRoundTrip | lib/utils/number.dart:5-23 | encoding the value of a byte list at its length gives the list |
| Numbers.EndianLaw | lib/utils/number.dart:5-23 | a byte in front counts once and the rest 256 times in little-endian order; a byte at the end does so in big-endian order |
| Numbers.ByteLengthExact | lib/utils/number.dart:14-15 | the default width is the least number n of bytes with -256^n <= v < 256^n, for every integer v |
| Bn.BitNot | lib/utils/bn.dart:45-69 | flipping digits and adding one gives 2^width - abs(v), for the width the padding and prefix choose |
| Bn.BitNotWidthLeast | lib/utils/bn.dart:49-58 | without a requested length, the width of `bitnot` is the least whole number of bytes with abs(v) <= 2^(width-1) |
| Bn.BitNotWidthAsked | lib/utils/bn.dart:60-62 | a requested length is kept iff it is above a byte width that holds abs(v); otherwise it is ignored |
| Bn.SignBitExact | lib/utils/bn.dart:103-106 | the test on `toInt` is bit 7 of the low byte within 64 bits; larger positive numbers pass it and smaller negative ones do not |
| Bn.BnToU8a | lib/utils/bn.dart:83-116 | the bytes are the two's complement of v at the width, except that with `isNegative` a positive v with bit 7 set is written as -v |
| Bn.ComplementBytes | lib/utils/bn.dart:51-68 | whatever prefix length `bitnot` picks, the bytes kept are those of -abs(v) |
| Bn.NegativeBranchesAgree | lib/utils/bn.dart:103-110 | for every negative v and byte width w both branches give the same bytes, of value v modulo 256^w, in either byte order |
| Compact.CompactToU8a | lib/utils/compact.dart:10-42 | the branches and the trimming loop write the specified bytes for every nonnegative value, and one byte for a negative one |
| Compact.TrimmedLength | lib/utils/compact.dart:26-31 | the loop keeps the value and stops before a nonzero byte |
| Compact.Format | lib/utils/compact.dart:18-41 | below 2^6, 2^14 and 2^30 one, two and four bytes of value 4v, 4v+1 and 4v+2; above, one byte 4(n-4)+3 and n bytes of value v whose last is not zero |
| Compact.NegativeMisread | lib/utils/compact.dart:18-56 | a negative value reads back as its 64-bit clamped value modulo 64 |
| Compact.RoundTrip | lib/utils/compact.dart:10-79 | followed by anything, the encoding of v reads back as v and its length iff v < 256^67 |
| Compact.LimitIs536Bits | lib/utils/compact.dart:35-39 | that bound is 2^536 |
| Compact.ReadExact | lib/utils/compact.dart:49-79 | for every input: the mode is in the two low bits, missing bytes count as zeros, and only a single byte of the long mode throws |
| Compact.Shortest | lib/utils/compact.dart:49-79 | the offset reported with a value is at least the length of its encoding, and every decoded value is encodable |
| Compact.TruncatedInput | lib/utils/compact.dart:62-66 | an input of three bytes is accepted with offset four and the value 16384, which encodes to four bytes |
| Compact.CanonicalExact | lib/utils/compact.dart:10-79 | for an input no shorter than its offset, encoding the value gives back the bytes read iff no smaller mode holds the value and a long one has no zero byte at its end, that is, iff the offset is the length of the encoding |
| Compact.PrefixFree | lib/utils/compact.dart:10-79 | equal streams starting with two encodings start with the same value and have the same rest |
| Compact.StripAdded | lib/utils/compact.dart:44-88 | stripping a length-prefixed list followed by anything gives the list and the frame length |
| Compact.FrameRead | lib/utils/compact.dart:44-46 | a frame is a compact number equal to the length of its content, and then the content |
| Compact.StripExact | lib/utils/compact.dart:44-88 | x is stripped off with a prefix of the shortest length iff the input starts with the frame of x |
| Compact.FramesSplit | lib/utils/compact.dart:44-88 | a concatenation of frames splits back into the lists |
| Compact.FramesInjective | lib/utils/compact.dart:44-88 | so two different sequences of lists never have the same concatenation |
| Sqrt.SqrtExact | lib/utils/bn.dart:134-144 | for every integer n, with exact quotients, the result r satisfies 0 <= r and r*r <= n < (r+1)*(r+1) iff n >= 0 and n is not 4; for 4 it is 1, and a negative n, which has no root, comes back unchanged |
| Sqrt.FromAbove | lib/utils/bn.dart:138-144 | with exact quotients, started at or above the root, iterates stay at or above it, strictly decrease, and stop at it |
| Sqrt.NextDecreases | lib/utils/bn.dart:139-143 | with exact quotients every step that does not stop lowers a measure, so the recursion ends |
| TimeSplit.ExtractExact | lib/utils/time.dart:8-63 | for every duration the recursion ends and the fields are in range and add up to it |
| TimeSplit.NormalUnique | lib/utils/time.dart:17-25 | only one split is in range and adds up |
| Random.DartRandom.NextInt | lib/util_crypto/random.dart:30-30 | one draw consumes one generator output |
| Random.DartRandom.NextBytes | lib/util_crypto/random.dart:36-43 | the filled list is the next outputs in order |
| Random.DartRandom.NextBigInteger | lib/util_crypto/random.dart:19-34 | the drawn number and how many outputs it consumes, which depends on the drawn bits |
| Random.DrawHasDigits | lib/util_crypto/random.dart:26-33 | every draw has at least 2L hexadecimal digits, because either fewer than four bits are missing or a nonzero part sits above bit 8L |
| Random.GetRandomValues | lib/util_crypto/random.dart:52-66 | for every length and stream exactly L bytes, from the second of two draws, and the drawn bytes themselves iff the condition of `DrawnBytesExact` holds |
| Random.DrawDigits | lib/util_crypto/random.dart:26-33 | for every draw the digits are those of the extra draw, if it is not zero, followed by two for each drawn byte; with four or more unused bits the extra draw is their count |
| Random.RandomBytesExact | lib/util_crypto/random.dart:52-66 | the result is the drawn bytes when the extra draw is zero; otherwise the digits of the extra draw come first and as many are cut off the end |
| Random.DrawnBytesExact | lib/util_crypto/random.dart:19-66 | the result is the drawn bytes iff the extra draw is zero, or is 1, 2 or 3 and every drawn byte is 17 times it |
| Random.RepeatedByteKept | lib/util_crypto/random.dart:29-65 | a stream with extra draw 1 on which the drawn byte 0x11 comes out |
| Random.DrawnByteLost | lib/util_crypto/random.dart:29-65 | a stream on which the byte 1 is drawn and 0x70 returned |
| PairContainer.Pkcs8RoundTrip | lib/keyring/pair.dart:62-119 | a 64-byte secret and its public key parse back from the container |
| PairContainer.PlainHasLayout | lib/keyring/pair.dart:116-119 | the plain container is the 16-byte header, the secret, the 5-byte divider and the public key |
| PairContainer.Pkcs8Exact | lib/keyring/pair.dart:62-84 | a container parses to a pair iff it begins with the encoding of it, with a 32-byte key and a 64-byte secret, or a 32-byte secret when it does not read as the other form |
| PairContainer.SeedContainerExact | lib/keyring/pair.dart:71-83 | with a 32-byte secret and a public key of any length: the secret and the first 32 key bytes come back iff there are 32 and bytes 27 to 31 differ from the divider; otherwise it throws, or for a key of 64 bytes or more is misread as given |
| PairContainer.DividerInKey | lib/keyring/pair.dart:71-81 | a 33-byte public key whose container does not parse |
| PairContainer.ScryptHeaderRoundTrip | lib/util_crypto/scrypt.dart:83-107 | the 44-byte header gives back the salt and the default parameters, whatever follows |
| PairContainer.OpenSealed | lib/keyring/pair.dart:94-111 | with any passphrase the decoder opens the sealed part under the encoder's nonce and the first 32 bytes of scrypt for the encoder's salt |
| PairContainer.ContainerRoundTrip | lib/keyring/pair.dart:86-132 | for keys of any length, decrypting with the passphrase used answers what the plain container does; with another one it fails or answers the same |
| PairContainer.PairRoundTrip | lib/keyring/pair.dart:62-132 | a 64-byte secret, or a 32-byte one iff bytes 27 to 31 of the key differ from the divider, comes back with the first 32 bytes of the public key |
| PairContainer.EncryptedLayout | lib/keyring/pair.dart:125-131 | 32 bytes of salt, the parameters 32768, 1 and 8, 24 bytes of nonce, and a box that the first 32 bytes of scrypt open to the plain container |
| PairContainer.PasswordRoundTrip | lib/keyring/pair.dart:104-108 | for every list of types without scrypt and keys of any length: the nonce and the container sealed under the bytes of the password, cut to 32 or followed by zeros, decode to what the plain container does |
| PairContainer.OpenExact | lib/keyring/pair.dart:86-113 | with a passphrase a container decodes to a pair iff its header, if there is scrypt, names the default parameters and its box opens under that key to a container that holds the pair |
| PairContainer.NoPassphraseExact | lib/keyring/pair.dart:88-92 | without a passphrase the default types and all that name the box are refused; under the others the container is read as it is |
| PairContainer.FixLengthKeepsValue | lib/utils/u8a.dart:52-70 | padding at the end keeps the little-endian number of the bytes, padding at the front the big-endian one |
| PairContainer.PlainNotReopened | lib/keyring/pair.dart:86-113 | a plain container is not read under the default types, unless a passphrase is given and the secret spells the default scrypt parameters |
| PairContainer.PlainRoundTrip | lib/keyring/pair.dart:86-123 | without a passphrase, for keys of any length, the container is the plain one, and gives back what the encrypted one does |
| KeyPair.SumZero | lib/keyring/pair.dart:221-232 | the bytes of a secret sum to zero iff all are zero |
| KeyPair.CreatePairClass.constructor | lib/keyring/pair.dart:282-303 | the initial fields, the address from the ethereum encoder for ethereum and from SS58 otherwise, and the raw address that keeps the last 20 bytes for ethereum |
| KeyPair.CreatePairClass.DecodePkcs8 | lib/keyring/pair.dart:310-322 | the new state and the outcome are those of the decode step; a failed decode leaves the pair as it was |
| KeyPair.CreatePairClass.EncodePkcs8 | lib/keyring/pair.dart:324-353 | the new container replaces the stored one and its types become the defaults |
| KeyPair.CreatePairClass.LockPair | lib/keyring/pair.dart:355-357 | only the secret is dropped |
| KeyPair.CreatePairClass.SetMetadata | lib/keyring/pair.dart:359-361 | only the metadata changes, new entries winning |
| KeyPair.CreatePairClass.SignMessage | lib/keyring/pair.dart:363-370 | the signature with its optional type prefix, from the current signing keys, changing nothing |
| KeyPair.StepConsistent | lib/keyring/pair.dart:310-370 | every operation on the pair's own containers keeps its keys, address and container those of one key pair, for 64-byte secrets and for 32-byte secrets that expand to the pair |
| KeyPair.RunConsistent | lib/keyring/pair.dart:282-370 | so does every run, with right and wrong passphrases |
| KeyPair.EncodeLockDecode | lib/keyring/pair.dart:310-357 | for the pairs of all four key types: encoding at any unlocked point of a run, then anything but encoding, then locking and decoding with that passphrase restores the pair iff its secret has 64 bytes or key bytes 27 to 31 differ from the divider; otherwise it throws with every passphrase and the pair stays locked |
| KeyPair.UnlockByPassword | lib/keyring/pair.dart:104-113 | a container made without scrypt, stored or handed in, unlocks the pair it holds with the right password iff its plain form can be read, and otherwise changes nothing |
| KeyPair.EncodeExact | lib/keyring/pair.dart:324-333 | encoding throws only for a missing secret; otherwise it stores and returns a container of the documented layout that holds the current keys |
| KeyPair.PlainEncodeStaysLocked | lib/keyring/pair.dart:310-357 | after encoding without a passphrase and locking, no decode of the own container succeeds, unless the secret spells the default scrypt parameters |
| KeyPair.PlainRunStaysLocked | lib/keyring/pair.dart:310-370 | and over every further run of locking, setting metadata, signing and own decodes the pair stays locked |
| KeyPair.StaysLocked | lib/keyring/pair.dart:310-370 | a locked pair whose container no passphrase opens stays locked over every such run, and every decode and signature throws |
| KeyPair.LostPairStaysLocked | lib/keyring/pair.dart:310-370 | so a pair whose key contains the divider, once encoded and locked, is never unlocked from its own container |
| KeyPair.SignExact | lib/keyring/pair.dart:363-370 | signing succeeds iff the secret has a nonzero byte, and changes nothing |
| KeyPair.ExposedNeverChange | lib/keyring/pair.dart:259-293 | over any run at all the address and the exposed public key keep their first values |
| KeyPair.SignsWithLastOpened | lib/keyring/pair.dart:310-370 | over any run with containers of any origin, both signing keys are those of the last container opened (or the pair is locked), and they match the exposed key iff that container holds it |
| KeyPair.NothingOpened | lib/keyring/pair.dart:310-370 | a run that opens no container keeps the signing key it started with |
| KeyPair.SignatureOfLastOpened | lib/keyring/pair.dart:363-370 | over any run, signing an unlocked pair gives exactly the signature of the keys last opened, and with type the same after the byte 2 for ecdsa and ethereum, 0 for ed25519 or 1 for sr25519 |
| KeyPair.SignatureUnopened | lib/keyring/pair.dart:363-370 | and before anything is opened, that of the keys it was made with |
| KeyPair.MetaLastSet | lib/keyring/pair.dart:359-361 | over any run a metadata entry has the value last set for its key |
| KeyPair.MetaKept | lib/keyring/pair.dart:359-361 | or the one it started with |
| Metadata.ChainThrough | lib/metadata/MetadataVersioned.dart:165-183 | stopping at any intermediate version gives the same composition |
| Metadata.ChainCalls | lib/metadata/MetadataVersioned.dart:90-146 | the conversions of a chain are those to the versions after u up to t, in this order, each told the raw version |
| Metadata.MetadataVersioned.constructor | lib/metadata/MetadataVersioned.dart:63-69 | a new structure of raw version 9 to 12 has an empty memo over its raw value |
| Metadata.MetadataVersioned.GetMetadata | lib/metadata/MetadataVersioned.dart:191-196 | always the value the structure started with, however often it was overwritten |
| Metadata.MetadataVersioned.AssertVersion | lib/metadata/MetadataVersioned.dart:85-88 | fails iff the raw version is above the target |
| Metadata.MetadataVersioned.UpdateMeta | lib/metadata/MetadataVersioned.dart:208-211 | the stored value changes but keeps the version; what is read later does not change once it has been read, and before the first read it becomes the raw value |
| Metadata.MetadataVersioned.Remember | lib/metadata/MetadataVersioned.dart:121-140 | one conversion extends the memo by the next value of the chain |
| Metadata.MetadataVersioned.AsV9 | lib/metadata/MetadataVersioned.dart:159-163 | the raw value, or failure above version 9 |
| Metadata.MetadataVersioned.GetVersion | lib/metadata/MetadataVersioned.dart:90-146 | the composition of the conversions on the raw value, computed through the memo with no conversion repeated; below the raw version it fails and changes no stored value |
| Metadata.MetadataVersioned.As | lib/metadata/MetadataVersioned.dart:159-183 | the same for each of the five getters |
| Metadata.MetadataVersioned.Calls | lib/metadata/MetadataVersioned.dart:159-212 | over any sequence of getter calls every answer is the pure chain, each conversion runs at most once, and raw value and version stay fixed |
| KeyPath.HexRoundTrip | lib/util_crypto/key.dart:72-77 | the hexadecimal form of a number's bytes is recognised as such and reads back |
| KeyPath.ChainCodeLength | lib/util_crypto/key.dart:71-88 | every kind of value gives a chain code of 32 bytes |
| KeyPath.ChainCodeExact | lib/util_crypto/key.dart:71-88 | the code of a number is the number modulo 2^256, low byte first; of bytes and hexadecimal text the bytes followed by zeros, or their hash above 32; other text of up to 31 UTF-8 bytes is stripped off its code with zeros after it, and of a longer one the code is the hash of what strips to it |
| KeyPath.JunctionExact | lib/util_crypto/key.dart:38-47 | any text gives a junction that is hard iff it starts with a slash, with the code of the name after it, and it throws iff the name is a number beyond 64 bits |
| KeyPath.DeriveJunction.Soft | lib/util_crypto/key.dart:71-88 | terminates, overwrites the chain code in place with that of the value, and keeps the hardness |
| KeyPath.DeriveJunction.Harden | lib/util_crypto/key.dart:65-69 | keeps the chain code |
| KeyPath.DeriveJunction.Soften | lib/util_crypto/key.dart:90-94 | keeps the chain code |
| KeyPath.DeriveJunction.From | lib/util_crypto/key.dart:38-47 | a fresh junction, hard iff the text starts with a slash, or failure for a number beyond 64 bits |
| KeyPath.KeyExtractPath | lib/util_crypto/key.dart:97-110 | the loop that appends junctions computes the specification function |
| KeyPath.ExtractExact | lib/util_crypto/key.dart:97-110 | accepts exactly the sequences of one or two slashes and a name without slashes whose all-digit names fit 64 bits; part i prints segment i, and junction i has its hardness and carries the code of its name, as read back by `CodeOf` |
| KeyPath.PathUnique | lib/util_crypto/key.dart:98-108 | a path is printed by one sequence of segments only |
| KeyPath.DeriveAlongBoth | lib/util_crypto/key.dart:97-152 | two accepted paths written after each other parse to the parts and junctions of both, and deriving along the text of the two is deriving along the one and then along the other |
| KeyPath.DeriveAlongExact | lib/util_crypto/key.dart:97-152 | deriving along a text gives a pair iff the text prints segments whose numbers fit and the pair is reached by one step for each, by the hard or soft function of the key type as the segment is, with the code of its name |
| KeyPath.NumberedStep | lib/util_crypto/key.dart:38-110 | a step named by a decimal number is accepted up to 2^63 - 1, and its code has the value of the number |
| KeyPath.LoneSlash | lib/util_crypto/key.dart:97-110 | that both are accepted matters: a lone slash is rejected, and before /a it makes the step hard |
| KeyPath.SoftRefused | lib/util_crypto/key.dart:123-152 | without soft derivation a path works iff all its junctions are hard |
| Sorting.CompareBytes | lib/utils/u8a.dart:73-89 | the comparator's loop computes the specification function, the exception past the end included |
| Sorting.CompareExact | lib/utils/u8a.dart:73-89 | it throws iff one list is a prefix of the other and otherwise orders the two strictly |
| Sorting.LessExact | lib/utils/u8a.dart:73-89 | a list is before another iff at the first position where they differ its byte is smaller |
| Sorting.U8aSorted | lib/utils/u8a.dart:72-91 | in place: a permutation, sorted when it succeeds, and it succeeds iff no list is a prefix of another |
| Sorting.SortedUnique | lib/utils/u8a.dart:72-91 | the sorted arrangement is unique, so the sorting algorithm does not matter |
| Sorting.SameLengthComparable | lib/utils/u8a.dart:72-91 | distinct lists of one length never throw |
| Address.AddressRoundTrip | lib/util_crypto/address.dart:26-90 | the address of any key of an allowed length under any prefix decodes to the key |
| Address.AddressBytes | lib/util_crypto/address.dart:43-59 | the address of a key of 1, 2, 4, 8, 32 or 33 bytes is the base58 form of the prefix modulo 256 (42 without one), the key, and one or two bytes of the 512-bit hash of SS58PRE and these; other lengths throw |
| Address.DecodeAddressExact | lib/util_crypto/address.dart:61-90 | a string that is not hexadecimal decodes iff its base58 bytes have an allowed length and end in the hash bytes of the rest, which `ignoreChecksum` waives; the key is the rest without its first byte |
| Address.HexAddress | lib/util_crypto/address.dart:61-64 | a hexadecimal string, in small or capital letters, decodes to the bytes it spells |
| Address.AddressImage | lib/util_crypto/address.dart:30-90 | every accepted address is the encoding of its key under its first decoded byte |
| Address.CreateKeyMulti | lib/util_crypto/address.dart:98-106 | succeeds iff all accounts decode and their keys can be sorted; the key is `KeyOfSorted` of the sorted keys, which `KeyInput` and `KeyDetermines` read back |
| Address.MultiKeyIndependent | lib/util_crypto/address.dart:98-106 | two lists naming the same keys in any order and under any prefixes both fail or give the same key, and they succeed iff no key is a prefix of another, as for distinct keys of one length |
| Address.KeyInput | lib/util_crypto/address.dart:98-106 | what is hashed reads from its front as the text modlpy/utilisuba, the number of keys as a compact integer, the keys of one length in order, and two bytes with the threshold modulo 65536 |
| Address.KeyDetermines | lib/util_crypto/address.dart:98-106 | without hash collisions, keys of one length give the same multi-signature key iff the sorted keys are equal and the thresholds agree modulo 65536 |
| Address.MultiKeyDetermines | lib/util_crypto/address.dart:98-106 | so two calls that succeed give the same key iff the accounts have the same multiset of keys and the thresholds agree modulo 65536 |
| Address.PermutedComparable | lib/utils/u8a.dart:72-91 | whether lists can be sorted does not depend on their order |
| Address.NamesDecode | lib/util_crypto/address.dart:98-103 | a list of keys and addresses decodes to the keys it names |
| Address.SortAddresses | lib/util_crypto/address.dart:92-96 | succeeds iff all addresses decode, the keys can be sorted and have an allowed length; the result is the addresses of the sorted keys |
| Address.SortAddressesAgain | lib/util_crypto/address.dart:92-96 | sorting a sorted list of addresses again changes nothing |

## Left out

- Associativity of the curve group and primality of the concrete constants: hypotheses, as described above.
- Inverse.InverseMulti: takes the quotient as exact, where the code divides through a double; `Inverse.InverseAnyQuotient` has no such restriction, and `Rounding.InverseMultiDouble` has the double for moduli up to 2^53.
- Inverse.InverseExact: the condition is for exact quotients, and so for moduli up to 2^53; above, a rounded one can fail on an invertible number (`RoundedQuotientsThrow`), and on which numbers it does is not characterised.
- Inverse.PrimeInverse: that an inverse is found is for exact quotients, and so for moduli up to 2^53.
- CurvePoints.AddSamePointClosed: that a doubling succeeds is for exact quotients, and so for moduli up to 2^53; for larger ones an answer that comes out is right (`AnyQuotient`), but a rounded quotient can make it throw.
- CurvePoints.AddDiffPointClosed: that an addition succeeds is for exact quotients, and so for moduli up to 2^53; for larger ones an answer that comes out is right (`AnyQuotient`), but a rounded quotient can make it throw.
- Ecdsa.ScanExact: that nothing throws on the way is for exact quotients, and so for moduli up to 2^53; for larger ones an answer that comes out is right (`AnyQuotient`), but a rounded quotient can make it throw.
- Ecdsa.PointByBigExact: that an answer comes out is for exact quotients, and so for moduli up to 2^53; for larger ones an answer that comes out is right (`AnyQuotient`), but a rounded quotient can make it throw.
- Ecdsa.PointByBigNegative: that an answer comes out is for exact quotients, and so for moduli up to 2^53; for larger ones an answer that comes out is right (`AnyQuotient`), but a rounded quotient can make it throw.
- Ecdsa.SignWithExact: that no nonce throws is for exact quotients, and so for moduli up to 2^53; for larger ones an answer that comes out is right (`AnyQuotient`), but a rounded quotient can make it throw.
- Ecdsa.SignsWithFirstUsable: that no earlier nonce throws is for exact quotients, and so for moduli up to 2^53; for larger ones an answer that comes out is right (`AnyQuotient`), but a rounded quotient can make it throw.
- Ecdsa.NoUsableNonce: that no nonce throws is for exact quotients, and so for moduli up to 2^53; for larger ones a rounded quotient can make it throw.
- Ecdsa.VerifyExact: that there are no other throwing cases is for exact quotients, and so for moduli up to 2^53; for larger ones an answer that comes out is right (`AnyQuotient`), but a rounded quotient can make it throw.
- Ecdsa.AddChoice: that nothing else throws is for exact quotients, and so for moduli up to 2^53; for larger ones an answer that comes out is right (`AnyQuotient`), but a rounded quotient can make it throw.
- Ecdsa.SignedIsVerified: that verification answers is for exact quotients, and so for moduli up to 2^53; for larger ones an answer that comes out is right (`AnyQuotient`), but a rounded quotient can make it throw.
- Ecdsa.SignThenVerify: that signing and verification answer is for exact quotients, and so for moduli up to 2^53; for larger ones an answer that comes out is right (`AnyQuotient`), but a rounded quotient can make it throw.
- Sqrt.SqrtExact: takes the quotient as exact, which a double gives up to 2^53 (`Rounding.BnSqrtDouble`); for larger numbers the root is not promised.
- Sqrt.FromAbove: the descent is for exact quotients.
- Sqrt.NextDecreases: the measure drops for exact quotients.
- That a double satisfies `Rounding.Rounds`: a property of IEEE 754 rounding to nearest, not proved here.
- `getPrivKeyByRand` and whether the retry loop of `sign` ends: `Sign` takes a finite stream of drawn nonces.
- Moduli that are not positive.
- `int.parse` also skips U+0085 around a compressed point's tag, and `BigInt.parse` does not; `ParseRadix` skips it for neither.
- `isUtf8` and `base32Encode` on arguments that are not byte lists: their conversion to bytes (`u8aToU8a`) is not modelled.
- Lists and texts of 2^536 bytes or more, whose length has no compact form: `KeyInput`, `KeyDetermines`, `MultiKeyDetermines` and the long texts of `ChainCodeExact` leave them out.
- `toInt` clamping of a decoded frame length beyond 64 bits, which no list reaches.
- KeyPair.CreatePairClass.EncodePkcs8: excludes a locked pair with a stored container, because there pair.dart:326-328 uses the result of a method without result as a condition.
- KeyPair.EncodeLockDecode: excludes a pair with a 32-byte secret and a public key of 64 bytes or more that is misread; `SeedContainerExact` says what it is misread as. No key type makes such a key from a seed.
- The seed functions of the key types are total here; they are only called on the 32 bytes a container holds.
- `derive`, `toJson` and `verify` of the pair, and a caller keeping a reference to its `PairInfo` and changing it.
- Metadata.MetadataVersioned.constructor: raw versions below 9 and raw version 13, on which `asLatest` calls itself, are excluded.
- The bodies of the metadata conversions, `asCallsOnly` and `getUniqTypes`.
- Sorting.U8aSorted: `List.sort` is modelled as insertion sort; `SortedUnique` shows that any other sort gives the same list.
- `keyExtractSuri`, `formatBalance`, `hexToBn` with a sign: what they are meant to do is unclear from the code.
- `createKeyDerived` (a hash of a concatenation, without sorting), `u8aConcat` as a function of its own (sequence concatenation here), `bnMax`, `bnMin`.
- The wrapper classes `CurvePrivateKey` and `CurvePublicKey`, uncompressed points, and `point2Big`.
- Time of non-integer or negative milliseconds; quotients are real numbers, not doubles.
- Hashes, ed25519, sr25519, scrypt, NaCl, BIP-39, base58 and native secp256k1: library code that is not part of this model.
- Foreign function bindings, isolates, the Rust crate, RPC, type registry and generated code, networks, examples and tests.
