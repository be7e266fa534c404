/**
 Unsigned big-endian byte strings, as Go's `math/big` reads and writes them:
 `Bytes` is `(*big.Int).Bytes` (the shortest big-endian encoding of a
 non-negative integer, empty for zero) and `FromBytes` is `(*big.Int).SetBytes`.
 `FixedBytes` is the fixed-width k-byte representation that the point codec
 lays out in its 32-byte fields.
 */
module BigEndian {

  type byte = b: int | 0 <= b < 256

  function Pow256(k: nat): (r: nat)
    ensures r >= 1
  {
    if k == 0 then 1 else 256 * Pow256(k - 1)
  }

  lemma {:induction false} Pow256Add(a: nat, b: nat)
    ensures Pow256(a + b) == Pow256(a) * Pow256(b)
  {
    if a != 0 {
      Pow256Add(a - 1, b);
      var p, q := Pow256(a - 1), Pow256(b);
      assert Pow256(a + b) == 256 * (p * q);
      assert 256 * (p * q) == (256 * p) * q;
    }
  }

  /** 256^32 = 2^256, the bound of a 32-byte field. */
  lemma Pow256Of32()
    ensures Pow256(32) == 0x1_0000_0000_0000_0000_0000_0000_0000_0000_0000_0000_0000_0000_0000_0000_0000_0000
  {
    assert Pow256(4) == 0x1_0000_0000;
    Pow256Add(4, 4);
    Pow256Add(8, 8);
    Pow256Add(16, 16);
  }

  /** The all-zero string of length k (a freshly made Go byte slice). */
  function Zeros(k: nat): (s: seq<byte>)
    ensures |s| == k
    ensures forall i :: 0 <= i < k ==> s[i] == 0
  {
    seq(k, _ => 0)
  }

  /** The value of `s` read as an unsigned big-endian integer (`SetBytes`). */
  function FromBytes(s: seq<byte>): (n: nat)
  {
    if s == [] then 0 else FromBytes(s[..|s| - 1]) * 256 + s[|s| - 1]
  }

  /** A string of k bytes holds a value below 256^k. */
  lemma {:induction false} FromBytesBound(s: seq<byte>)
    ensures FromBytes(s) < Pow256(|s|)
  {
    if s != [] {
      FromBytesBound(s[..|s| - 1]);
    }
  }

  /** The shortest big-endian encoding of n (`Bytes`). */
  function Bytes(n: nat): (s: seq<byte>)
  {
    if n == 0 then [] else Bytes(n / 256) + [n % 256]
  }

  /** The shortest encoding reads back as n, has no leading zero byte, and is
      empty exactly when n is zero. */
  lemma {:induction false} BytesSpec(n: nat)
    ensures FromBytes(Bytes(n)) == n
    ensures Bytes(n) == [] <==> n == 0
    ensures Bytes(n) != [] ==> Bytes(n)[0] != 0
  {
    if n != 0 {
      BytesSpec(n / 256);
      var s := Bytes(n);
      assert s[..|s| - 1] == Bytes(n / 256);
    }
  }

  /** The k base-256 digits of n, most significant first. */
  function FixedBytes(n: nat, k: nat): (s: seq<byte>)
    ensures |s| == k
  {
    if k == 0 then [] else FixedBytes(n / 256, k - 1) + [n % 256]
  }

  lemma DivBound(n: nat, p: nat)
    ensures n / 256 < p <==> n < 256 * p
  {
  }

  /** n fits in k bytes exactly when its shortest encoding has at most k bytes. */
  lemma {:induction false} BytesLength(n: nat, k: nat)
    ensures |Bytes(n)| <= k <==> n < Pow256(k)
  {
    if n != 0 && k != 0 {
      BytesLength(n / 256, k - 1);
      DivBound(n, Pow256(k - 1));
    }
  }

  /** Right-aligning the shortest encoding in a k-byte field behind zero bytes
      gives the k-digit representation. */
  lemma {:induction false} PaddedBytes(n: nat, k: nat)
    requires n < Pow256(k)
    ensures |Bytes(n)| <= k
    ensures Zeros(k - |Bytes(n)|) + Bytes(n) == FixedBytes(n, k)
  {
    BytesLength(n, k);
    if n == 0 {
      FixedZero(k);
    } else {
      DivBound(n, Pow256(k - 1));
      PaddedBytes(n / 256, k - 1);
      var b := Bytes(n / 256);
      assert Zeros(k - |Bytes(n)|) == Zeros(k - 1 - |b|);
      calc {
        Zeros(k - |Bytes(n)|) + Bytes(n);
        Zeros(k - 1 - |b|) + (b + [n % 256]);
        (Zeros(k - 1 - |b|) + b) + [n % 256];
        FixedBytes(n / 256, k - 1) + [n % 256];
      }
    }
  }

  /** Zero is written as k zero bytes. */
  lemma {:induction false} FixedZero(k: nat)
    ensures FixedBytes(0, k) == Zeros(k)
  {
    if k != 0 {
      FixedZero(k - 1);
    }
  }

  /** Reading back a k-digit representation gives the number written. */
  lemma {:induction false} FromFixed(n: nat, k: nat)
    requires n < Pow256(k)
    ensures FromBytes(FixedBytes(n, k)) == n
  {
    if k != 0 {
      DivBound(n, Pow256(k - 1));
      FromFixed(n / 256, k - 1);
      var s := FixedBytes(n, k);
      assert s == FixedBytes(n / 256, k - 1) + [n % 256];
      assert s[..|s| - 1] == FixedBytes(n / 256, k - 1) && s[|s| - 1] == n % 256;
      assert FromBytes(s) == n / 256 * 256 + n % 256;
    }
  }

  /** Writing back the value of a string in as many digits as it has gives the string. */
  lemma {:induction false} FixedFrom(s: seq<byte>)
    ensures FixedBytes(FromBytes(s), |s|) == s
  {
    if s != [] {
      var p, d := s[..|s| - 1], s[|s| - 1];
      var v := FromBytes(p);
      FixedFrom(p);
      assert (v * 256 + d) / 256 == v && (v * 256 + d) % 256 == d;
      assert s == p + [d];
    }
  }

  /** Leading zero bytes do not change the value. */
  lemma {:induction false} FromZeros(k: nat)
    ensures FromBytes(Zeros(k)) == 0
  {
    FixedZero(k);
    FromFixed(0, k);
  }
}
