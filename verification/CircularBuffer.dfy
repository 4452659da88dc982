/** The circular byte buffer of kernel/ipc/src/circular_buffer.rs. */
module CircularBuffer {
  import opened Prelude

  /** The slot `n` places after slot `at`, going round the end. */
  function After(at: nat, n: nat, cap: nat): nat
    requires at < cap && n <= cap
  {
    if at + n < cap then at + n else at + n - cap
  }

  lemma RemainderIsAfter(at: nat, n: nat, cap: nat)
    requires at < cap && n <= cap
    ensures (at + n) % cap == After(at, n, cap)
  {
    var q := if at + n < cap then 0 else 1;
    QuotientIs(at + n, cap, q);
  }

  lemma QuotientIs(x: nat, cap: nat, q: nat)
    requires cap > 0 && q < 2 && 0 <= x - (if q == 0 then 0 else cap) < cap
    ensures x % cap == x - if q == 0 then 0 else cap
  {
    var d := x / cap;
    assert x == cap * d + x % cap;
    assert d >= 2 ==> cap * d >= 2 * cap;
  }

  /** `n` bytes of `data` from slot `at`, going round the end. */
  ghost function Wrapped(data: seq<byte>, at: nat, n: nat): (r: seq<byte>)
    requires at < |data| && n <= |data|
    ensures |r| == n
  {
    seq(n, i requires 0 <= i < n => data[After(at, i, |data|)])
  }

  /** Dropping `k` bytes moves the start on by `k`. */
  lemma WrappedDrop(data: seq<byte>, at: nat, n: nat, k: nat)
    requires at < |data| && k <= n <= |data|
    ensures Wrapped(data, After(at, k, |data|), n - k) == Wrapped(data, at, n)[k..]
    ensures Wrapped(data, at, k) == Wrapped(data, at, n)[..k]
    ensures After(After(at, k, |data|), n - k, |data|) == After(at, n, |data|)
  {
    var a, b := Wrapped(data, After(at, k, |data|), n - k), Wrapped(data, at, n)[k..];
    assert forall i :: 0 <= i < n - k ==> a[i] == b[i];
  }

  /** Writing the slots after the stored bytes appends. */
  lemma WrappedAppend(data: seq<byte>, data': seq<byte>, at: nat, n: nat, src: seq<byte>)
    requires at < |data| == |data'| && n + |src| <= |data|
    requires Wrapped(data', at, n) == Wrapped(data, at, n)
    requires Wrapped(data', After(at, n, |data|), |src|) == src
    ensures Wrapped(data', at, n + |src|) == Wrapped(data, at, n) + src
    ensures After(After(at, n, |data|), |src|, |data|) == After(at, n + |src|, |data|)
  {
    var to := After(at, n, |data|);
    var a, b := Wrapped(data', at, n + |src|), Wrapped(data', at, n) + Wrapped(data', to, |src|);
    assert forall i :: 0 <= i < n + |src| ==> a[i] == b[i];
  }

  class CircularBuffer {
    const data: array<byte>
    var readPos: nat
    var writePos: nat
    var count: nat

    ghost predicate Valid()
      reads this
    {
      && count <= data.Length
      && (data.Length == 0 ==> readPos == 0 && writePos == 0)
      && (data.Length > 0 ==> readPos < data.Length && writePos == After(readPos, count, data.Length))
    }

    ghost function Contents(): (s: seq<byte>)
      requires Valid()
      reads this, data
      ensures |s| == count
    {
      if data.Length == 0 then [] else Wrapped(data[..], readPos, count)
    }

    constructor (capacity: nat)
      ensures Valid() && fresh(data) && data.Length == capacity && Contents() == []
    {
      data := new byte[capacity](_ => 0);
      readPos, writePos, count := 0, 0, 0;
    }

    /** The two copies of a read: up to the end of the array, then from its start. */
    method CopyOut(buf: array<byte>, k: nat)
      requires Valid() && buf != data && k <= buf.Length && k <= count && 0 < data.Length
      modifies buf
      ensures buf[..k] == Wrapped(data[..], readPos, k) && buf[k..] == old(buf[k..])
    {
      var first := Min(data.Length - readPos, k);
      forall i | 0 <= i < first {
        buf[i] := data[readPos + i];
      }
      if first < k {
        forall i | first <= i < k {
          buf[i] := data[i - first];
        }
      }
      ghost var bytes := data[..];
      assert forall i :: 0 <= i < k ==> buf[..k][i] == Wrapped(bytes, readPos, k)[i];
    }

    method Read(buf: array<byte>) returns (n: nat)
      requires Valid() && buf != data
      modifies this`readPos, this`count, buf
      ensures Valid() && n == Min(buf.Length, |old(Contents())|)
      ensures buf[..n] == old(Contents())[..n] && buf[n..] == old(buf[n..])
      ensures Contents() == old(Contents())[n..]
    {
      var toRead := Min(buf.Length, count);
      if toRead == 0 {
        return 0;
      }
      var cap := data.Length;
      ghost var bytes := data[..];
      CopyOut(buf, toRead);
      WrappedDrop(bytes, readPos, count, toRead);
      RemainderIsAfter(readPos, toRead, cap);
      var next := (readPos + toRead) % cap;
      readPos, count := next, count - toRead;
      assert data[..] == bytes;
      return toRead;
    }

    /** The two copies of a write: up to the end of the array, then from its start. */
    method CopyIn(src: seq<byte>)
      requires Valid() && 0 < data.Length && count + |src| <= data.Length
      modifies data
      ensures Wrapped(data[..], writePos, |src|) == src
      ensures Wrapped(data[..], readPos, count) == old(Contents())
    {
      var first := Min(data.Length - writePos, |src|);
      forall i | writePos <= i < writePos + first {
        data[i] := src[i - writePos];
      }
      if first < |src| {
        forall i | 0 <= i < |src| - first {
          data[i] := src[first + i];
        }
      }
      ghost var bytes := data[..];
      assert forall i :: 0 <= i < |src| ==> Wrapped(bytes, writePos, |src|)[i] == src[i];
      assert forall i :: 0 <= i < count ==> Wrapped(bytes, readPos, count)[i] == old(Contents())[i];
    }

    method Write(buf: seq<byte>) returns (n: nat)
      requires Valid()
      modifies this`writePos, this`count, data
      ensures Valid() && n == Min(|buf|, data.Length - |old(Contents())|)
      ensures Contents() == old(Contents()) + buf[..n]
    {
      var available := data.Length - count;
      var toWrite := Min(|buf|, available);
      if toWrite == 0 {
        return 0;
      }
      var cap := data.Length;
      CopyIn(buf[..toWrite]);
      WrappedAppend(old(data[..]), data[..], readPos, count, buf[..toWrite]);
      RemainderIsAfter(writePos, toWrite, cap);
      var next := (writePos + toWrite) % cap;
      writePos, count := next, count + toWrite;
      return toWrite;
    }
  }
}
