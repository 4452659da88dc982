/** The Internet checksum of kernel/net/src/checksum.rs (section 1 of RFC 1071). */
module Checksums {
  import opened Prelude

  const TWO_32 := 0x1_0000_0000

  /** Big-endian bytes of a 16-bit value. */
  function ToBytes(n: nat): (b: seq<byte>)
    requires n < 0x1_0000
    ensures |b| == 2 && Word(b[0], b[1]) == n
  {
    [n / 256, n % 256]
  }

  function Word(hi: byte, lo: byte): (w: nat)
    ensures w < 0x1_0000
  {
    256 * hi + lo
  }

  /** The sum of the 16-bit big-endian words; an odd last byte is a high byte. */
  ghost function WordSum(data: seq<byte>): nat {
    if |data| == 0 then 0
    else if |data| == 1 then Word(data[0], 0)
    else Word(data[0], data[1]) + WordSum(data[2..])
  }

  /** One's complement residue: congruent to `n` modulo 65535, zero only for zero. */
  ghost function Residue(n: nat): (r: nat)
    ensures r <= 0xFFFF && (r == 0 <==> n == 0)
  {
    if n <= 0xFFFF then n else Residue(n - 0xFFFF)
  }

  lemma {:induction false} ResidueUnique(r: nat, k: nat)
    requires 0 < r <= 0xFFFF
    ensures Residue(r + 0xFFFF * k) == r
    decreases k
  {
    if k > 0 {
      ResidueUnique(r, k - 1);
    }
  }

  lemma {:induction false} ResidueCongruent(n: nat) returns (k: nat)
    ensures n == Residue(n) + 0xFFFF * k
  {
    if n <= 0xFFFF {
      k := 0;
    } else {
      k := ResidueCongruent(n - 0xFFFF);
      k := k + 1;
    }
  }

  /** The value `internet_checksum` returns: the complement of the residue of a 32-bit sum. */
  ghost function Checksum(data: seq<byte>): (c: nat)
    ensures c <= 0xFFFF
  {
    0xFFFF - Residue(WordSum(data) % TWO_32)
  }

  method InternetChecksum(data: seq<byte>) returns (c: nat)
    ensures c == Checksum(data)
  {
    var sum := SumWords(data);
    while sum / 0x1_0000 != 0
      invariant Residue(sum) == Residue(WordSum(data) % TWO_32)
      decreases sum
    {
      FoldKeepsResidue(sum);
      sum := sum % 0x1_0000 + sum / 0x1_0000;
    }
    c := 0xFFFF - sum;
  }

  /** The 32-bit accumulation loop. */
  method SumWords(data: seq<byte>) returns (sum: nat)
    ensures sum == WordSum(data) % TWO_32
  {
    var i: nat := 0;
    sum := 0;
    assert data[0..] == data;
    while i + 1 < |data|
      invariant i <= |data| && sum < TWO_32
      invariant (sum + WordSum(data[i..])) % TWO_32 == WordSum(data) % TWO_32
    {
      assert data[i..][2..] == data[i + 2..];
      WrapAdd(sum + Word(data[i], data[i + 1]), WordSum(data[i + 2..]));
      sum := (sum + Word(data[i], data[i + 1])) % TWO_32;
      i := i + 2;
    }
    if i < |data| {
      assert data[i..] == [data[i]];
      sum := (sum + Word(data[i], 0)) % TWO_32;
    }
  }

  lemma WrapAdd(a: nat, b: nat)
    ensures (a % TWO_32 + b) % TWO_32 == (a + b) % TWO_32
  {
  }

  lemma FoldKeepsResidue(n: nat)
    requires n >= 0x1_0000
    ensures Residue(n % 0x1_0000 + n / 0x1_0000) == Residue(n)
  {
    var q, m := n / 0x1_0000, n % 0x1_0000 + n / 0x1_0000;
    var k := ResidueCongruent(m);
    assert n == m + 0xFFFF * q == Residue(m) + 0xFFFF * (k + q);
    ResidueUnique(Residue(m), k + q);
  }

  // ---------------------------------------------------------------------------
  // The accumulator
  // ---------------------------------------------------------------------------

  lemma {:induction false} WordSumBound(data: seq<byte>)
    ensures WordSum(data) <= 0xFFFF * (|data| / 2) + 0xFF00 * (|data| % 2)
  {
    if |data| >= 2 {
      WordSumBound(data[2..]);
    }
  }

  function Ones(n: nat): (data: seq<byte>)
    ensures |data| == n
  {
    seq(n, _ => 0xFF)
  }

  lemma {:induction false} WordSumOfOnes(n: nat)
    ensures WordSum(Ones(n)) == 0xFFFF * (n / 2) + 0xFF00 * (n % 2)
  {
    if n >= 2 {
      WordSumOfOnes(n - 2);
      assert Ones(n)[2..] == Ones(n - 2);
    }
  }

  /** No buffer of length `n` overflows the 32-bit sum exactly when `n` is at most 131074. */
  lemma SumFitsIff(n: nat)
    ensures (forall data: seq<byte> :: |data| == n ==> WordSum(data) < TWO_32) <==> n <= 131074
  {
    if n <= 131074 {
      forall data: seq<byte> | |data| == n
        ensures WordSum(data) < TWO_32
      {
        WordSumBound(data);
      }
    } else {
      WordSumOfOnes(n);
      assert |Ones(n)| == n;
    }
  }

  // ---------------------------------------------------------------------------
  // Storing the checksum
  // ---------------------------------------------------------------------------

  /** `data` with the 16-bit value `c` at offset `k`. */
  function Store(data: seq<byte>, k: nat, c: nat): (r: seq<byte>)
    requires k + 2 <= |data| && c < 0x1_0000
    ensures |r| == |data| && r[..k] == data[..k] && r[k..k + 2] == ToBytes(c) && r[k + 2..] == data[k + 2..]
  {
    data[..k] + ToBytes(c) + data[k + 2..]
  }

  lemma {:induction false} WordSumStore(data: seq<byte>, k: nat, c: nat)
    requires k % 2 == 0 && k + 2 <= |data| && data[k] == data[k + 1] == 0 && c < 0x1_0000
    ensures WordSum(Store(data, k, c)) == WordSum(data) + c
    decreases k
  {
    var r := Store(data, k, c);
    if k == 0 {
      assert r[2..] == data[2..];
      assert r[0] == r[0..2][0] && r[1] == r[0..2][1];
    } else {
      assert r[0] == data[..k][0] && r[1] == data[..k][1];
      assert r[2..] == Store(data[2..], k - 2, c);
      WordSumStore(data[2..], k - 2, c);
    }
  }

  /** Stored in a zeroed even-offset field, the checksum makes the recomputed checksum zero, at every length:
      the stored value never carries the 32-bit sum across a wrap. */
  lemma StoredChecksumVerifies(data: seq<byte>, k: nat)
    requires k % 2 == 0 && k + 2 <= |data| && data[k] == data[k + 1] == 0
    ensures Checksum(Store(data, k, Checksum(data))) == 0
  {
    WordSumStore(data, k, Checksum(data));
    ComplementVerifies(Store(data, k, Checksum(data)), WordSum(data));
  }

  lemma ComplementVerifies(data: seq<byte>, n: nat)
    requires WordSum(data) == n + (0xFFFF - Residue(n % TWO_32))
    ensures Checksum(data) == 0
  {
    var m := n % TWO_32;
    var c := 0xFFFF - Residue(m);
    ComplementFits(m);
    WrapAdd(n, c);
    ResidueComplement(m);
  }

  lemma ComplementFits(m: nat)
    requires m < TWO_32
    ensures m + (0xFFFF - Residue(m)) < TWO_32
  {
    var k := ResidueCongruent(m);
  }

  lemma ResidueComplement(n: nat)
    ensures Residue(n + (0xFFFF - Residue(n))) == 0xFFFF
  {
    if n > 0 {
      var k := ResidueCongruent(n);
      ResidueUnique(0xFFFF, k);
    }
  }
}
