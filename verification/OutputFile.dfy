/** The output file of the decompressor, and the loops that fill it: creation as all zeros,
    writing a buffer in spite of short writes, and telling whether a buffer is all zeros. */
module OutputFile {

  type Byte = b: int | 0 <= b < 256

  function Zeros(n: nat): (z: seq<Byte>)
    ensures |z| == n && forall k | 0 <= k < n :: z[k] == 0
  {
    seq(n, _ => 0)
  }

  predicate AllZero(s: seq<Byte>) {
    forall k | 0 <= k < |s| :: s[k] == 0
  }

  lemma {:induction false} ZeroByOverlap(s: seq<Byte>, k: nat)
    requires 16 <= |s| && AllZero(s[..16]) && s[..|s| - 16] == s[16..]
    requires k < |s|
    ensures s[k] == 0
  {
    if k < 16 {
      assert s[..16][k] == 0;
    } else {
      ZeroByOverlap(s, k - 16);
      assert s[..|s| - 16][k - 16] == s[16..][k - 16];
    }
  }

  /** After sixteen zero bytes, a buffer is all zeros exactly when it equals itself sixteen
      bytes on. */
  lemma Overlap(s: seq<Byte>)
    requires 16 <= |s| && AllZero(s[..16])
    ensures s[..|s| - 16] == s[16..] <==> AllZero(s)
  {
    if s[..|s| - 16] == s[16..] {
      forall k | 0 <= k < |s| ensures s[k] == 0 { ZeroByOverlap(s, k); }
    }
  }

  /** memcmp on two parts of one buffer, equality only. */
  method SameBytes(buffer: array<Byte>, i: nat, j: nat, n: nat) returns (same: bool)
    requires i + n <= buffer.Length && j + n <= buffer.Length
    ensures same <==> buffer[i..i + n] == buffer[j..j + n]
  {
    var k := 0;
    while k < n
      invariant k <= n && buffer[i..i + k] == buffer[j..j + k]
    {
      if buffer[i + k] != buffer[j + k] {
        assert buffer[i..i + n][k] != buffer[j..j + n][k];
        return false;
      }
      k := k + 1;
    }
    return true;
  }

  /** True exactly on all-zero buffers, though only the first bytes are compared with zero. */
  method IsZero(buffer: array<Byte>, size: nat) returns (zero: bool)
    requires size <= buffer.Length
    ensures zero <==> AllZero(buffer[..size])
  {
    var limit := if size < 16 then size else 16;
    var i := 0;
    while i < limit
      invariant i <= limit && forall k | 0 <= k < i :: buffer[k] == 0
    {
      if buffer[i] != 0 {
        assert buffer[..size][i] != 0;
        return false;
      }
      i := i + 1;
    }
    zero := true;
    if size != limit {
      zero := SameBytes(buffer, 0, 16, size - 16);
      ghost var s := buffer[..size];
      assert buffer[0..0 + (size - 16)] == s[..size - 16] && buffer[16..16 + (size - 16)] == s[16..];
      Overlap(s);
    }
  }

  /** The content after a file is cut or extended with zeros to n bytes. */
  function Resized(content: seq<Byte>, n: nat): (r: seq<Byte>)
    ensures |r| == n
  {
    if n <= |content| then content[..n] else content + Zeros(n - |content|)
  }

  /** The content after buf is written at an offset. */
  function Written(content: seq<Byte>, offset: nat, buf: seq<Byte>): (r: seq<Byte>)
    ensures |r| == if buf == [] || offset + |buf| <= |content| then |content| else offset + |buf|
    ensures forall p | 0 <= p < |r| ::
              r[p] == if offset <= p < offset + |buf| then buf[p - offset]
                      else if p < |content| then content[p] else 0
  {
    if buf == [] then content
    else
      var c := if |content| < offset + |buf| then Resized(content, offset + |buf|) else content;
      c[..offset] + buf + c[offset + |buf|..]
  }

  /** Two writes one after the other, side by side, are one write. */
  lemma WrittenTwice(content: seq<Byte>, offset: nat, a: seq<Byte>, b: seq<Byte>)
    ensures Written(Written(content, offset, a), offset + |a|, b) == Written(content, offset, a + b)
  {
    hide Written;
    var l, r := Written(Written(content, offset, a), offset + |a|, b), Written(content, offset, a + b);
    if a == [] {
      assert a + b == b;
    } else if b == [] {
      assert a + b == a;
    } else {
      assert |l| == |r|;
      forall p | 0 <= p < |r| ensures l[p] == r[p] { }
    }
  }

  lemma NothingWritten(content: seq<Byte>, offset: nat, buf: seq<Byte>)
    requires buf == []
    ensures Written(content, offset, buf) == content
  {
  }

  class File {
    var content: seq<Byte>

    /** How many calls on the file have failed. */
    ghost var failures: nat

    constructor (content: seq<Byte>)
      ensures this.content == content && failures == 0
    {
      this.content := content;
      failures := 0;
    }

    method Ftruncate(n: nat) returns (ok: bool)
      modifies this
      ensures content == if ok then Resized(old(content), n) else old(content)
      ensures failures == old(failures) + if ok then 0 else 1
    {
      ok := *;
      if ok { content := Resized(content, n); } else { failures := failures + 1; }
    }

    /** Writes some of the buffer, at least one byte, or fails with -1. */
    method Pwrite(buf: seq<Byte>, offset: nat) returns (r: int)
      requires buf != []
      modifies this
      ensures r == -1 || 1 <= r <= |buf|
      ensures content == if r == -1 then old(content) else Written(old(content), offset, buf[..r])
      ensures failures == old(failures) + if r == -1 then 1 else 0
    {
      var k: nat := *;
      r := if 1 <= k <= |buf| then k else -1;
      if r != -1 { content := Written(content, offset, buf[..r]); } else { failures := failures + 1; }
    }

    /** Loops over short writes: all of the buffer, or part of it when a call has failed. */
    method Xpwrite(bufp: seq<Byte>, offsetp: nat) returns (ok: bool, ghost done: nat)
      modifies this
      ensures done <= |bufp| && (ok <==> done == |bufp|)
      ensures failures == old(failures) + if ok then 0 else 1
      ensures content == Written(old(content), offsetp, bufp[..done])
    {
      hide Written;
      var buf, offset := bufp, offsetp;
      NothingWritten(content, offset, bufp[..0]);
      done := 0;
      while buf != []
        invariant done <= |bufp| && offset == offsetp + done && buf == bufp[done..]
        invariant content == Written(old(content), offsetp, bufp[..done]) && failures == old(failures)
        decreases |buf|
      {
        var r := Pwrite(buf, offset);
        if r == -1 { return false, done; }
        WrittenTwice(old(content), offsetp, bufp[..done], buf[..r]);
        assert bufp[..done] + buf[..r] == bufp[..done + r];
        done := done + r;
        buf := buf[r..];
        offset := offset + r;
      }
      ok := true;
      assert bufp[..done] == bufp;
    }

    /** Makes the file `size` zero bytes, whatever it held, by way of a one-byte file. */
    method Create(size: nat) returns (ok: bool)
      modifies this
      ensures ok ==> content == Zeros(size)
      ensures failures == old(failures) + if ok then 0 else 1
    {
      ok := Ftruncate(1);
      if !ok { return; }
      var r := Pwrite([0], 0);
      if r == -1 { return false; }
      assert content == Zeros(1);
      ok := Ftruncate(size);
    }
  }
}
