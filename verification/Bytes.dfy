/**
 Bytes, and the flat-file operations that every store of the server is compared with.
 */
module Bytes {

  type byte = b: int | 0 <= b < 256

  const U32: nat := 0x1_0000_0000

  datatype Option<+T> = None | Some(value: T)

  function Max(a: int, b: int): int {
    if a < b then b else a
  }

  function Min(a: int, b: int): int {
    if a < b then a else b
  }

  function Zeros(n: nat): (z: seq<byte>)
    ensures |z| == n
    ensures forall i | 0 <= i < n :: z[i] == 0
  {
    seq(n, _ => 0)
  }

  /** A flat file after `data` is placed at `off`: a gap before `off` reads as zeros, and
      an empty `data` still extends the file to `off`. */
  function Splice(s: seq<byte>, off: nat, data: seq<byte>): (r: seq<byte>)
    ensures |r| == Max(|s|, off + |data|)
    ensures forall i | 0 <= i < |r| ::
              r[i] == if off <= i < off + |data| then data[i - off] else if i < |s| then s[i] else 0
  {
    var end := off + |data|;
    var front := if off <= |s| then s[..off] else s + Zeros(off - |s|);
    front + data + if end < |s| then s[end..] else []
  }

  /** A flat file resized to exactly `n` bytes: cut, or extended with zeros. */
  function Resize(s: seq<byte>, n: nat): (r: seq<byte>)
    ensures |r| == n
    ensures forall i | 0 <= i < n :: r[i] == if i < |s| then s[i] else 0
  {
    if n <= |s| then s[..n] else s + Zeros(n - |s|)
  }

  lemma Assoc<T>(a: seq<T>, b: seq<T>, c: seq<T>)
    ensures a + (b + c) == a + b + c
  {
  }

  function Concat<T>(parts: seq<seq<T>>): seq<T> {
    if parts == [] then [] else parts[0] + Concat(parts[1..])
  }

  lemma TakeOneMore<T>(s: seq<T>, k: nat)
    requires k < |s|
    ensures s[..k + 1] == s[..k] + [s[k]]
  {
  }

  lemma TakeAll<T>(s: seq<T>)
    ensures s[..|s|] == s
  {
  }

  lemma FrontSlice<T>(a: seq<T>, n: nat, p: nat, q: nat)
    requires p <= q <= n <= |a|
    ensures a[..n][p..q] == a[p..q]
  {
  }
}
