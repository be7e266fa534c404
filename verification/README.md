# alt_bn128 curve evaluator and point codec

A Dafny model of the deterministic core of `alt_bn128.go` from the bgls
BLS-signature library: the curve constants of alt_bn128 (BN254), the
right-hand-side evaluator `altbnXToYSquared` that the try-and-increment hasher
tests for quadratic residuosity, and the fixed-width big-endian codec that moves
affine coordinates into and out of the byte layout of the external curve
library (`AltbnMkG1Point`, `AltbnG1ToCoord`, `AltbnG2ToCoord`; the G1 layout is
the one in the "Encoding" section of Ethereum's EIP-196).

Files:

- `big_endian.dfy`, module `BigEndian`: Go's `(*big.Int).Bytes` (shortest
  big-endian encoding, empty for zero) as `Bytes`, `(*big.Int).SetBytes` as
  `FromBytes`, and the fixed k-digit base-256 representation `FixedBytes`,
  with the lemmas that connect them. Bytes are `byte`, integers in [0, 256).
- `alt_bn128.dfy`, module `AltBn128`: q, b, Z, sqrt(-3), the evaluator, and
  the algebraic relations that the source comments give for the constants.
- `point_codec.dfy`, module `PointCodec`: the G1 buffer built in place in a
  64-byte array by two Go `copy` calls, and the G1/G2 decoders.

Three points where the code does less than one might assume, and the model
follows the code:

- The evaluator is naturally read as x^3 + b mod q, a field element. The code
  reduces x^3 mod q and then adds b without reducing again, so the result lies
  in [3, q + 2] and equals q + 2 for x = q - 1 (`XToYSquaredUnreducedWitness`).
- The decoders slice the marshaled stream without checking its length; a short
  stream would make Go panic, so the decoders require a long enough stream
  rather than returning an error.
- `AltbnMkG1Point` does not reject a y of 33 to 64 bytes: the second `copy`
  then writes into x's half (`OversizedYOverwritesX`). Only an x longer than
  32 bytes or a y longer than 64 bytes makes a slice offset invalid (a panic);
  those two bounds are the method's preconditions.

## Model

| member | source | states |
|---|---|---|
| `AltBn128.XToYSquared` | alt_bn128.go:56-61 | the result lies in [b, q + b) and is congruent to x^3 + b modulo q (its residue is the field element `CurveRhs(x)`) |
| `AltBn128.XToYSquaredReducedIff` | alt_bn128.go:56-61 | the result is the reduced field element exactly when x^3 mod q < q - b; otherwise it exceeds that element by exactly q |
| `AltBn128.XToYSquaredUnreducedWitness` | alt_bn128.go:56-61 | for x = q - 1 the result is q + 2, while x^3 + b mod q is 2: the final addition is not reduced |
| `AltBn128.ZFromSqrtn3` | alt_bn128.go:19-23 | 2Z + 1 equals the constant for sqrt(-3), i.e. Z = (-1 + sqrt(-3)) / 2 |
| `AltBn128.Sqrtn3Squared` | alt_bn128.go:22-23 | sqrt(-3)^2 + 3 is divisible by q, so the constant is a square root of -3 in F_q |
| `AltBn128.ZCubeRootOfUnity` | alt_bn128.go:19-20 | Z^2 + Z + 1 = 0 and Z^3 = 1 in F_q |
| `BigEndian.Bytes` | alt_bn128.go:66 | Go's `x.Bytes()`, the shortest big-endian encoding; its contract is stated by `BytesSpec` and `BytesLength` |
| `BigEndian.FromBytes` | alt_bn128.go:86-87 | Go's `SetBytes`, the unsigned big-endian value of a byte string; its contract is stated by `FromBytesBound`, `FromFixed` and `FixedFrom` |
| `BigEndian.BytesSpec` | alt_bn128.go:66 | the shortest encoding of n reads back as n, has no leading zero byte, and is empty exactly for n = 0 |
| `BigEndian.FromBytesBound` | alt_bn128.go:86-87 | the value read from a k-byte string is below 256^k |
| `BigEndian.Pow256Of32` | alt_bn128.go:67 | a 32-byte field holds exactly the values below 2^256 |
| `BigEndian.BytesLength` | alt_bn128.go:68 | the shortest encoding of n has at most k bytes exactly when n < 256^k (so the offset 32 - len(xBytes) is valid exactly when x < 2^256) |
| `BigEndian.PaddedBytes` | alt_bn128.go:67-69 | zero bytes followed by the shortest encoding, right-aligned in a k-byte field, are the k-digit big-endian representation |
| `BigEndian.FixedZero` | alt_bn128.go:67-68 | zero is written as k zero bytes (with `G1Layout`: x = 0 leaves the first 32 bytes zero) |
| `BigEndian.FromFixed` | alt_bn128.go:86-87 | reading back the k-digit representation of n < 256^k gives n |
| `BigEndian.FixedFrom` | alt_bn128.go:86-87 | writing the value of any byte string back in as many digits gives the string |
| `BigEndian.FromZeros` | alt_bn128.go:86-87 | any run of zero bytes reads as 0 |
| `PointCodec.OverwriteRegion` | alt_bn128.go:68-69 | the copied region holds exactly the source bytes |
| `PointCodec.OverwriteAt` | alt_bn128.go:68-69 | each byte of the result is the source byte inside the copied region and the old byte outside it |
| `PointCodec.CopySteps` | alt_bn128.go:67-69 | the zeroed buffer after the x copy and then the y copy, each copying its whole source, is G1Buffer's layout |
| `PointCodec.Copy` | alt_bn128.go:68-69 | Go's copy into `dst[off:]` copies min(len(dst) - off, len(src)) bytes at offset off and changes nothing else |
| `PointCodec.G1Buffer` | alt_bn128.go:66-69 | the 64 bytes AltbnMkG1Point builds, of length 64, defined under the code's own slice bounds; `G1Layout` states it is x's 32-byte field followed by y's, and `CopySteps` that the two copies produce it |
| `PointCodec.MkG1Point` | alt_bn128.go:65-70 | under the code's own slice bounds, the fresh 64-byte array holds the zeroed buffer after x's copy and then y's |
| `PointCodec.FirstCopy` | alt_bn128.go:67-68 | after the first copy, x's bytes end at byte 32 behind zero padding and the second half is still zero |
| `PointCodec.SecondCopy` | alt_bn128.go:69 | a y of at most 32 bytes lands right-aligned in the second half behind zero padding, leaving the first half as it was |
| `PointCodec.YCopyKeepsX` | alt_bn128.go:68-69 | copying a y of at most 32 bytes second leaves the first 32 bytes (x's field) unchanged |
| `PointCodec.G1Layout` | alt_bn128.go:66-69 | for x, y < 2^256 the buffer is the 32-byte big-endian field of x followed by that of y |
| `PointCodec.OversizedYOverwritesX` | alt_bn128.go:69 | a y of 33 to 64 bytes is written in full, starting with a non-zero byte inside x's field |
| `PointCodec.OversizedYNotRecovered` | alt_bn128.go:69 | for such a y the decoded second coordinate is below y, so the buffer never decodes back to (x, y) |
| `PointCodec.G1ToCoord` | alt_bn128.go:83-89 | both decoded coordinates are below 2^256 and re-encode to exactly bytes [0, 32) and [32, 64) of the stream |
| `PointCodec.G1ToCoordFields` | alt_bn128.go:85-87 | the two fields of a 64-byte stream are read independently, first x then y |
| `PointCodec.G1RoundTrip` | alt_bn128.go:66-87 | decoding the buffer built from x, y < 2^256 gives back (x, y) |
| `PointCodec.G1RoundTripBytes` | alt_bn128.go:66-87 | building the buffer from the coordinates decoded from any 64-byte stream gives back the stream |
| `PointCodec.G1ZeroStream` | alt_bn128.go:85-87 | the all-zero stream decodes to (0, 0) |
| `PointCodec.FieldElementFits` | alt_bn128.go:17 | q < 2^256, so every reduced field element has at most 32 bytes |
| `PointCodec.FieldPointRoundTrip` | alt_bn128.go:66-87 | a pair of reduced field elements is laid out as two 32-byte fields and decodes back to itself |
| `PointCodec.G2ToCoord` | alt_bn128.go:92-99 | the four decoded values are below 2^256 and re-encode to bytes [0, 32), [32, 64), [64, 96), [96, 128) of the stream, in the order xx, xy, yx, yy |
| `PointCodec.G2ToCoordFields` | alt_bn128.go:94-98 | the four fields of a 128-byte stream are read independently, in order |
| `PointCodec.G2RoundTrip` | alt_bn128.go:94-98 | four 32-byte big-endian fields decode to the four values written, in order |

## Left out

- `hash32` and `hash64`, the try-and-increment loop: they are not part of this model (their source is not in `alt_bn128.go`), so the quadratic-residue test, square-root selection and counter encoding are not modelled.
- `AltbnSha3`, `AltbnKeccak3`, `AltbnBlake2b`, `AltbnKang12`: one-line delegations to the hashers above.
- The hash primitives SHA3-512, BLAKE2b-512, `kang12_64` and `EthereumSum256` (Keccak-256 with Ethereum's padding): foreign library calls.
- `bn256.G1.Unmarshal`, `bn256.G1.Marshal`, `bn256.G2.Marshal`: the external curve library (on-curve validation, group arithmetic). The decoders take the marshaled byte stream as their input.
- `AltbnHashToCurve`: it only chains the Keccak hasher, `AltbnMkG1Point` and Unmarshal, and discards Unmarshal's flag.
- `PointCodec.MkG1Point`: returns the 64-byte buffer handed to Unmarshal, not the library's point and its validity flag.
- `PointCodec.MkG1Point`: takes non-negative coordinates; Go's `Bytes` drops the sign of a negative `*big.Int`, which is not modelled.
- The package-level exponent `three` is defined outside `alt_bn128.go`; it is taken to be 3.
- Primality of q is not proved; the constant relations are checked as integer facts modulo q.
