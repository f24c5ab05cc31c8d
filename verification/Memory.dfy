/** Bytes, and the <string.h> operations on a range of a buffer. */
module Memory {

  type byte = x: int | 0 <= x < 256

  function Repeat(c: byte, n: nat): (r: seq<byte>)
    ensures |r| == n && forall i :: 0 <= i < n ==> r[i] == c
  {
    seq(n, _ => c)
  }

  /** `s` with the bytes from position `at` replaced by `bytes`. */
  function Splice(s: seq<byte>, at: nat, bytes: seq<byte>): (r: seq<byte>)
    requires at + |bytes| <= |s|
    ensures |r| == |s|
    ensures r[at..at + |bytes|] == bytes
    ensures forall i :: 0 <= i < at ==> r[i] == s[i]
    ensures forall i :: at + |bytes| <= i < |s| ==> r[i] == s[i]
  {
    s[..at] + bytes + s[at + |bytes|..]
  }

  method MemSet(a: array<byte>, at: nat, c: byte, n: nat)
    requires at + n <= a.Length
    modifies a
    ensures a[..] == Splice(old(a[..]), at, Repeat(c, n))
  {
    forall i | at <= i < at + n {
      a[i] := c;
    }
  }

  method MemCpy(a: array<byte>, at: nat, src: seq<byte>)
    requires at + |src| <= a.Length
    modifies a
    ensures a[..] == Splice(old(a[..]), at, src)
  {
    forall i | at <= i < at + |src| {
      a[i] := src[i - at];
    }
  }

  /** The source range is in the same buffer and may overlap the destination. */
  method MemMove(a: array<byte>, at: nat, from: nat, n: nat)
    requires at + n <= a.Length && from + n <= a.Length
    modifies a
    ensures a[..] == Splice(old(a[..]), at, old(a[from..from + n]))
  {
    forall i | 0 <= i < n {
      a[at + i] := a[from + i];
    }
  }
}
