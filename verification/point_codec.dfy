/**
 The fixed-width big-endian point codec: the 64-byte G1 buffer of two 32-byte
 coordinates (x then y, as in the "Encoding" section of Ethereum's EIP-196),
 and the slicing of marshaled G1 (64-byte) and G2 (128-byte) streams back into
 their 32-byte coordinates.
 */
module PointCodec {
  import opened BigEndian
  import AltBn128

  datatype G1Coord = G1Coord(x: nat, y: nat)

  /** The two coordinates of an F_q^2 point, each as a pair of base-field words,
      in the order the curve library marshals them. */
  datatype G2Coord = G2Coord(xx: nat, xy: nat, yx: nat, yy: nat)

  function Min(a: nat, b: nat): (m: nat)
    ensures m <= a && m <= b && (m == a || m == b)
  {
    if a <= b then a else b
  }

  /** `buf` with `src` written over it from offset `off`. */
  function Overwrite(buf: seq<byte>, off: nat, src: seq<byte>): (r: seq<byte>)
    requires off + |src| <= |buf|
    ensures |r| == |buf|
  {
    buf[..off] + src + buf[off + |src|..]
  }

  /** The overwritten region holds exactly `src`. */
  lemma OverwriteRegion(buf: seq<byte>, off: nat, src: seq<byte>)
    requires off + |src| <= |buf|
    ensures Overwrite(buf, off, src)[off..off + |src|] == src
  {
    var r := Overwrite(buf, off, src);
    assert r == buf[..off] + src + buf[off + |src|..];
  }

  /** Each byte of the result is the source byte inside the region and the old byte outside it. */
  lemma OverwriteAt(buf: seq<byte>, off: nat, src: seq<byte>)
    requires off + |src| <= |buf|
    ensures forall i :: 0 <= i < |buf| ==>
      Overwrite(buf, off, src)[i] == if off <= i < off + |src| then src[i - off] else buf[i]
  {
  }

  /**
   Go's `copy(dst[off:], src)`: the slice expression demands off <= len(dst),
   then min(len(dst) - off, len(src)) bytes of src are copied from offset off.
   */
  method Copy(dst: array<byte>, off: nat, src: seq<byte>) returns (n: nat)
    requires off <= dst.Length
    modifies dst
    ensures n == Min(dst.Length - off, |src|)
    ensures dst[..] == Overwrite(old(dst[..]), off, src[..n])
  {
    n := Min(dst.Length - off, |src|);
    var i := 0;
    while i < n
      invariant 0 <= i <= n
      invariant forall j :: 0 <= j < dst.Length && !(off <= j < off + i) ==> dst[j] == old(dst[j])
      invariant forall j :: off <= j < off + i ==> dst[j] == src[j - off]
    {
      dst[off + i] := src[i];
      i := i + 1;
    }
    OverwriteAt(old(dst[..]), off, src[..n]);
    assert dst[..] == Overwrite(old(dst[..]), off, src[..n]);
  }

  /**
   The 64-byte buffer that AltbnMkG1Point hands to the curve library, as the code
   builds it: a zeroed buffer, x's shortest encoding copied to end at byte 32,
   then y's copied to end at byte 64. The slice offsets are valid (the code does
   not panic) exactly when x has at most 32 bytes and y at most 64.
   */
  function G1Buffer(x: nat, y: nat): (r: seq<byte>)
    requires |Bytes(x)| <= 32 && |Bytes(y)| <= 64
    ensures |r| == 64
  {
    var xb, yb := Bytes(x), Bytes(y);
    Overwrite(Overwrite(Zeros(64), 32 - |xb|, xb), 64 - |yb|, yb)
  }

  method MkG1Point(x: nat, y: nat) returns (ret: array<byte>)
    requires |Bytes(x)| <= 32 && |Bytes(y)| <= 64
    ensures fresh(ret) && ret.Length == 64
    ensures ret[..] == G1Buffer(x, y)
  {
    var xBytes, yBytes := Bytes(x), Bytes(y);
    ret := new byte[64](_ => 0);
    ghost var zeroed := ret[..];
    var xn := Copy(ret, 32 - |xBytes|, xBytes);
    ghost var withX := ret[..];
    var yn := Copy(ret, 64 - |yBytes|, yBytes);
    CopySteps(zeroed, withX, ret[..], xBytes, yBytes, xn, yn);
  }

  /** The two copies of MkG1Point, on a zeroed 64-byte buffer, produce G1Buffer's bytes. */
  lemma CopySteps(zeroed: seq<byte>, withX: seq<byte>, withY: seq<byte>,
                  xb: seq<byte>, yb: seq<byte>, xn: nat, yn: nat)
    requires |zeroed| == 64 && forall i :: 0 <= i < 64 ==> zeroed[i] == 0
    requires |xb| <= 32 && |yb| <= 64
    requires xn == |xb| && withX == Overwrite(zeroed, 32 - |xb|, xb[..xn])
    requires yn == |yb| && withY == Overwrite(withX, 64 - |yb|, yb[..yn])
    ensures withY == Overwrite(Overwrite(Zeros(64), 32 - |xb|, xb), 64 - |yb|, yb)
  {
    assert zeroed == Zeros(64);
    assert xb[..xn] == xb && yb[..yn] == yb;
  }

  /** Writing a y of at most 32 bytes, second, leaves the first 32 bytes (x's field) as they were. */
  lemma YCopyKeepsX(buf: seq<byte>, yb: seq<byte>)
    requires |buf| == 64 && |yb| <= 32
    ensures Overwrite(buf, 64 - |yb|, yb)[..32] == buf[..32]
  {
    var r := Overwrite(buf, 64 - |yb|, yb);
    OverwriteAt(buf, 64 - |yb|, yb);
    assert forall i :: 0 <= i < 32 ==> r[i] == buf[i];
  }

  /** The first copy into the zeroed buffer right-aligns x's bytes in the first field. */
  lemma FirstCopy(xb: seq<byte>)
    requires |xb| <= 32
    ensures Overwrite(Zeros(64), 32 - |xb|, xb) == Zeros(32 - |xb|) + xb + Zeros(32)
  {
    var r := Overwrite(Zeros(64), 32 - |xb|, xb);
    var e := Zeros(32 - |xb|) + xb + Zeros(32);
    OverwriteAt(Zeros(64), 32 - |xb|, xb);
    assert forall i :: 0 <= i < 64 ==> r[i] == e[i];
  }

  /** The second copy, of at most 32 bytes, right-aligns y's bytes in the second field. */
  lemma SecondCopy(a: seq<byte>, yb: seq<byte>)
    requires |a| == 32 && |yb| <= 32
    ensures Overwrite(a + Zeros(32), 64 - |yb|, yb) == a + (Zeros(32 - |yb|) + yb)
  {
    var r := Overwrite(a + Zeros(32), 64 - |yb|, yb);
    var e := a + (Zeros(32 - |yb|) + yb);
    OverwriteAt(a + Zeros(32), 64 - |yb|, yb);
    assert forall i :: 0 <= i < 64 ==> r[i] == e[i];
  }

  /** For coordinates below 2^256 the buffer is x's 32-byte big-endian field followed by y's. */
  lemma G1Layout(x: nat, y: nat)
    requires x < Pow256(32) && y < Pow256(32)
    ensures |Bytes(x)| <= 32 && |Bytes(y)| <= 32
    ensures G1Buffer(x, y) == FixedBytes(x, 32) + FixedBytes(y, 32)
  {
    PaddedBytes(x, 32);
    PaddedBytes(y, 32);
    FirstCopy(Bytes(x));
    SecondCopy(FixedBytes(x, 32), Bytes(y));
  }

  /**
   A y of 33 to 64 bytes passes the slice bounds, and its copy runs into x's
   field: all of y's bytes are written, starting with a non-zero byte before
   byte 32.
   */
  lemma OversizedYOverwritesX(x: nat, y: nat)
    requires |Bytes(x)| <= 32 && 32 < |Bytes(y)| <= 64
    ensures 64 - |Bytes(y)| < 32
    ensures G1Buffer(x, y)[64 - |Bytes(y)|..64] == Bytes(y)
    ensures G1Buffer(x, y)[64 - |Bytes(y)|] != 0
  {
    var xb, yb := Bytes(x), Bytes(y);
    var first := Overwrite(Zeros(64), 32 - |xb|, xb);
    OverwriteRegion(first, 64 - |yb|, yb);
    BytesSpec(y);
    var buf := G1Buffer(x, y);
    assert buf[64 - |yb|] == buf[64 - |yb|..64][0];
  }

  /** Such a y is at least 2^256, so the buffer never decodes back to (x, y). */
  lemma OversizedYNotRecovered(x: nat, y: nat)
    requires |Bytes(x)| <= 32 && 32 < |Bytes(y)| <= 64
    ensures G1ToCoord(G1Buffer(x, y)).y < y
  {
    BytesLength(y, 32);
  }

  /**
   AltbnG1ToCoord on the marshaled stream: bytes [0, 32) and [32, 64) read as
   unsigned big-endian integers. Each is below 2^256 and re-encodes to exactly
   its 32 bytes.
   */
  function G1ToCoord(stream: seq<byte>): (p: G1Coord)
    requires |stream| >= 64
    ensures p.x < Pow256(32) && p.y < Pow256(32)
    ensures FixedBytes(p.x, 32) == stream[..32]
    ensures FixedBytes(p.y, 32) == stream[32..64]
  {
    var xBytes, yBytes := stream[..32], stream[32..64];
    assert |xBytes| == 32 && |yBytes| == 32;
    FixedFrom(xBytes);
    FixedFrom(yBytes);
    FromBytesBound(xBytes);
    FromBytesBound(yBytes);
    G1Coord(FromBytes(xBytes), FromBytes(yBytes))
  }

  /** G1ToCoord reads its two fields independently of each other. */
  lemma G1ToCoordFields(a: seq<byte>, b: seq<byte>)
    requires |a| == 32 && |b| == 32
    ensures G1ToCoord(a + b) == G1Coord(FromBytes(a), FromBytes(b))
  {
    var s := a + b;
    assert s[..|a|] == a && s[|a|..|a| + |b|] == b;
  }

  /** Decoding the buffer built from (x, y) gives back (x, y). */
  lemma G1RoundTrip(x: nat, y: nat)
    requires x < Pow256(32) && y < Pow256(32)
    ensures |Bytes(x)| <= 32 && |Bytes(y)| <= 64
    ensures G1ToCoord(G1Buffer(x, y)) == G1Coord(x, y)
  {
    G1Layout(x, y);
    G1ToCoordFields(FixedBytes(x, 32), FixedBytes(y, 32));
    FromFixed(x, 32);
    FromFixed(y, 32);
  }

  /** Building the buffer from the coordinates decoded from any 64-byte stream gives the stream back. */
  lemma G1RoundTripBytes(stream: seq<byte>)
    requires |stream| == 64
    ensures |Bytes(G1ToCoord(stream).x)| <= 32 && |Bytes(G1ToCoord(stream).y)| <= 64
    ensures G1Buffer(G1ToCoord(stream).x, G1ToCoord(stream).y) == stream
  {
    var p := G1ToCoord(stream);
    G1Layout(p.x, p.y);
    Rejoin(stream, 32);
  }

  lemma Rejoin(s: seq<byte>, k: nat)
    requires k <= |s|
    ensures s[..k] + s[k..|s|] == s
  {
  }

  /** The all-zero stream decodes to (0, 0). */
  lemma G1ZeroStream()
    ensures G1ToCoord(Zeros(64)) == G1Coord(0, 0)
  {
    assert Zeros(64)[..32] == Zeros(32) && Zeros(64)[32..64] == Zeros(32);
    FromZeros(32);
  }

  /** Every reduced field element fits a 32-byte field, since q < 2^256. */
  lemma FieldElementFits(v: nat)
    requires v < AltBn128.Q
    ensures v < Pow256(32)
    ensures |Bytes(v)| <= 32
  {
    Pow256Of32();
    BytesLength(v, 32);
  }

  /** A pair of reduced field elements, as the hasher produces, survives the G1 buffer and back. */
  lemma FieldPointRoundTrip(x: nat, y: nat)
    requires x < AltBn128.Q && y < AltBn128.Q
    ensures |Bytes(x)| <= 32 && |Bytes(y)| <= 32
    ensures G1Buffer(x, y) == FixedBytes(x, 32) + FixedBytes(y, 32)
    ensures G1ToCoord(G1Buffer(x, y)) == G1Coord(x, y)
  {
    FieldElementFits(x);
    FieldElementFits(y);
    G1Layout(x, y);
    G1RoundTrip(x, y);
  }

  /**
   AltbnG2ToCoord on the marshaled stream: four 32-byte fields [0, 32),
   [32, 64), [64, 96), [96, 128) read as unsigned big-endian integers, in that
   order; each re-encodes to exactly its 32 bytes.
   */
  function G2ToCoord(stream: seq<byte>): (p: G2Coord)
    requires |stream| >= 128
    ensures p.xx < Pow256(32) && p.xy < Pow256(32) && p.yx < Pow256(32) && p.yy < Pow256(32)
    ensures FixedBytes(p.xx, 32) == stream[..32]
    ensures FixedBytes(p.xy, 32) == stream[32..64]
    ensures FixedBytes(p.yx, 32) == stream[64..96]
    ensures FixedBytes(p.yy, 32) == stream[96..128]
  {
    var xxBytes, xyBytes, yxBytes, yyBytes := stream[..32], stream[32..64], stream[64..96], stream[96..128];
    assert |xxBytes| == 32 && |xyBytes| == 32 && |yxBytes| == 32 && |yyBytes| == 32;
    FixedFrom(xxBytes);
    FixedFrom(xyBytes);
    FixedFrom(yxBytes);
    FixedFrom(yyBytes);
    FromBytesBound(xxBytes);
    FromBytesBound(xyBytes);
    FromBytesBound(yxBytes);
    FromBytesBound(yyBytes);
    G2Coord(FromBytes(xxBytes), FromBytes(xyBytes), FromBytes(yxBytes), FromBytes(yyBytes))
  }

  /** G2ToCoord reads its four fields independently of each other. */
  lemma G2ToCoordFields(a: seq<byte>, b: seq<byte>, c: seq<byte>, d: seq<byte>)
    requires |a| == 32 && |b| == 32 && |c| == 32 && |d| == 32
    ensures G2ToCoord(a + b + c + d) == G2Coord(FromBytes(a), FromBytes(b), FromBytes(c), FromBytes(d))
  {
    var s := a + b + c + d;
    assert |s| == 128;
    assert s[..32] == a;
    assert s[32..64] == b;
    assert s[64..96] == c;
    assert s[96..128] == d;
  }

  /** Four 32-byte big-endian fields decode to the four values written. */
  lemma G2RoundTrip(xx: nat, xy: nat, yx: nat, yy: nat)
    requires xx < Pow256(32) && xy < Pow256(32) && yx < Pow256(32) && yy < Pow256(32)
    ensures G2ToCoord(FixedBytes(xx, 32) + FixedBytes(xy, 32) + FixedBytes(yx, 32) + FixedBytes(yy, 32))
         == G2Coord(xx, xy, yx, yy)
  {
    G2ToCoordFields(FixedBytes(xx, 32), FixedBytes(xy, 32), FixedBytes(yx, 32), FixedBytes(yy, 32));
    FromFixed(xx, 32);
    FromFixed(xy, 32);
    FromFixed(yx, 32);
    FromFixed(yy, 32);
  }
}
