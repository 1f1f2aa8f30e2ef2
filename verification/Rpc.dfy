/**
 Receiving an RPC message (src/rpc.c): reassembly of record-marked fragments from a socket
 that delivers bytes in pieces, and the self-check that rejects a replayed WRITE.
 */
module Rpc {
  import opened Bytes
  import opened Xdr

  // ----- Reassembly -----------------------------------------------------------------------

  /** A connection: the bytes the peer sends, how many of them each recv delivers, and which
      waits time out. */
  class Socket {
    const incoming: seq<byte>
    const delivers: nat -> nat
    const stalls: nat -> bool
    var at: nat
    var calls: nat

    constructor (incoming: seq<byte>, delivers: nat -> nat, stalls: nat -> bool)
      ensures Valid() && at == 0 && this.incoming == incoming && this.stalls == stalls
    {
      this.incoming, this.delivers, this.stalls := incoming, delivers, stalls;
      at, calls := 0, 0;
    }

    ghost predicate Valid()
      reads this
    {
      at <= |incoming|
    }

    /** At least one and at most `max` of the bytes on the way; none at the end of the stream or
        when the wait times out. */
    method Recv(max: nat) returns (data: seq<byte>)
      requires Valid() && max > 0
      modifies this
      ensures Valid() && at == old(at) + |data| && |data| <= max && data == incoming[old(at)..at]
      ensures data == [] ==> old(at) == |incoming| || stalls(old(calls))
    {
      var n := if stalls(calls) then 0 else Min(Max(1, delivers(calls)), Min(max, |incoming| - at));
      data := incoming[at..at + n];
      at, calls := at + n, calls + 1;
    }
  }

  ghost predicate NeverStalls(s: Socket) {
    forall n :: !s.stalls(n)
  }

  /** Fill `buf[off..off+len)` from the socket, whatever pieces it comes in. */
  method RecvAll(s: Socket, buf: array<byte>, off: nat, len: nat) returns (ok: bool)
    requires s.Valid() && off + len <= buf.Length
    modifies s, buf
    ensures s.Valid() && s.at >= old(s.at)
    ensures buf[..off] == old(buf[..off])
    ensures ok ==> s.at == old(s.at) + len && buf[off..off + len] == s.incoming[old(s.at)..s.at]
    ensures !ok ==> |s.incoming| < old(s.at) + len || !NeverStalls(s)
  {
    var done := 0;
    while done < len
      invariant done <= len && s.Valid() && s.at == old(s.at) + done
      invariant forall x | 0 <= x < off :: buf[x] == old(buf[x])
      invariant forall x | off <= x < off + done :: buf[x] == s.incoming[old(s.at) + (x - off)]
    {
      ghost var mid := s.at;
      var data := s.Recv(len - done);
      if |data| == 0 {
        return false;
      }
      forall i | 0 <= i < |data| {
        buf[off + done + i] := data[i];
      }
      assert forall x | 0 <= x < |data| :: data[x] == s.incoming[mid + x];
      done := done + |data|;
    }
    ok := true;
  }

  /** A record mark: the length, with the top bit set on the last fragment. */
  function Mark(len: nat, last: bool): seq<byte> {
    Be32(len + if last then 0x8000_0000 else 0)
  }

  /** Fragments as they travel, the last one marked. */
  function Wire(frags: seq<seq<byte>>): seq<byte> {
    if frags == [] then [] else Mark(|frags[0]|, |frags| == 1) + frags[0] + Wire(frags[1..])
  }

  lemma WireFirst(frags: seq<seq<byte>>)
    requires frags != [] && |frags[0]| < 0x8000_0000
    ensures
      var w, n := Wire(frags), |frags[0]|;
      && 4 + n <= |w|
      && OfBe32(w[0..4]) == n + (if |frags| == 1 then 0x8000_0000 else 0)
      && w[4..4 + n] == frags[0] && w[4 + n..|w|] == Wire(frags[1..])
  {
    var w, n := Wire(frags), |frags[0]|;
    var v := n + if |frags| == 1 then 0x8000_0000 else 0;
    Be32RoundTrip(v);
    assert w[0..4] == Be32(v);
  }

  // What any stream of bytes means.

  function FragLen(stream: seq<byte>, p: nat): nat
    requires p + 4 <= |stream|
  {
    OfBe32(stream[p..p + 4]) % 0x8000_0000
  }

  predicate FragLast(stream: seq<byte>, p: nat)
    requires p + 4 <= |stream|
  {
    OfBe32(stream[p..p + 4]) >= 0x8000_0000
  }

  /** A mark and all the bytes it announces lie at `p`. */
  predicate HasFrag(stream: seq<byte>, p: nat) {
    p + 4 <= |stream| && p + 4 + FragLen(stream, p) <= |stream|
  }

  /** The message that starts at `p`, joined from its fragments, and where it ends; none when the
      stream ends before it does. */
  function Message(stream: seq<byte>, p: nat): Option<(seq<byte>, nat)>
    decreases |stream| - p
  {
    if !HasFrag(stream, p) then None
    else
      var q := p + 4 + FragLen(stream, p);
      var data := stream[p + 4..q];
      if FragLast(stream, p) then Some((data, q))
      else
        match Message(stream, q)
        case None => None
        case Some((more, end)) => Some((data + more, end))
  }

  /** These fragments lie at `p`. */
  ghost predicate Lies(stream: seq<byte>, p: nat, frags: seq<seq<byte>>) {
    && (forall i | 0 <= i < |frags| :: |frags[i]| < 0x8000_0000)
    && p + |Wire(frags)| <= |stream| && stream[p..p + |Wire(frags)|] == Wire(frags)
  }

  /** The first fragment lies where its mark says, and the others after it. */
  lemma FirstFragment(stream: seq<byte>, p: nat, frags: seq<seq<byte>>)
    requires Lies(stream, p, frags) && frags != []
    ensures HasFrag(stream, p) && FragLen(stream, p) == |frags[0]| && FragLast(stream, p) == (|frags| == 1)
    ensures var q := p + 4 + |frags[0]|;
      stream[p + 4..q] == frags[0] && Lies(stream, q, frags[1..]) && q + |Wire(frags[1..])| == p + |Wire(frags)|
  {
    WireFirst(frags);
    MarkParts(|frags[0]|, |frags| == 1);
    FragmentIn(stream, p, Wire(frags), |frags[0]|, frags[0], Wire(frags[1..]));
  }

  lemma MarkParts(n: nat, last: bool)
    requires n < 0x8000_0000
    ensures var v := n + if last then 0x8000_0000 else 0;
      v % 0x8000_0000 == n && (v >= 0x8000_0000 <==> last)
  {
  }

  lemma FragmentIn(stream: seq<byte>, p: nat, w: seq<byte>, n: nat, data: seq<byte>, rest: seq<byte>)
    requires p + |w| <= |stream| && stream[p..p + |w|] == w && |w| == 4 + n + |rest|
    requires w[4..4 + n] == data && w[4 + n..|w|] == rest
    ensures stream[p..p + 4] == w[0..4] && stream[p + 4..p + 4 + n] == data
    ensures var q := p + 4 + n; q + |rest| <= |stream| && stream[q..q + |rest|] == rest
  {
    ThreeParts(stream, p, w, 4, 4 + n);
  }

  /** However a payload is cut into fragments, the message is the payload. */
  lemma {:induction false} FragmentsJoin(stream: seq<byte>, p: nat, frags: seq<seq<byte>>)
    requires Lies(stream, p, frags) && frags != []
    ensures Message(stream, p) == Some((Concat(frags), p + |Wire(frags)|))
    decreases |frags|
  {
    FirstFragment(stream, p, frags);
    if |frags| == 1 {
      assert frags[1..] == [] && frags[0] + [] == frags[0];
    } else {
      FragmentsJoin(stream, p + 4 + |frags[0]|, frags[1..]);
    }
  }

  lemma ThreeParts(s: seq<byte>, p: nat, w: seq<byte>, i: nat, j: nat)
    requires p + |w| <= |s| && s[p..p + |w|] == w && i <= j <= |w|
    ensures s[p..p + i] == w[0..i] && s[p + i..p + j] == w[i..j] && s[p + j..p + |w|] == w[j..|w|]
  {
    InWire(s, p, w, 0, i);
    InWire(s, p, w, i, j);
    InWire(s, p, w, j, |w|);
  }

  lemma InWire(s: seq<byte>, p: nat, w: seq<byte>, i: nat, j: nat)
    requires p + |w| <= |s| && s[p..p + |w|] == w && i <= j <= |w|
    ensures s[p + i..p + j] == w[i..j]
  {
    SliceOfSlice(s, p, |w|, i, j);
  }

  /** The four bytes of a record mark. */
  method ReadMark(s: Socket) returns (ok: bool, last: bool, flen: nat)
    requires s.Valid()
    modifies s
    ensures s.Valid()
    ensures ok ==> s.at == old(s.at) + 4 <= |s.incoming|
    ensures ok ==> flen == FragLen(s.incoming, old(s.at)) && last == FragLast(s.incoming, old(s.at))
    ensures !ok ==> |s.incoming| < old(s.at) + 4 || !NeverStalls(s)
  {
    var mark := new byte[4];
    last, flen := false, 0;
    ok := RecvAll(s, mark, 0, 4);
    if ok {
      var rm := OfBe32(mark[0..4]);
      last := rm >= 0x8000_0000;
      flen := rm % 0x8000_0000;
    }
  }

  /** One turn of the loop: a mark, the bound check, and the fragment's bytes. */
  method ReadFragment(s: Socket, buf: array<byte>, total: nat) returns (ok: bool, last: bool, sum: nat)
    requires s.Valid() && total <= buf.Length
    modifies s, buf
    ensures s.Valid() && buf[..total] == old(buf[..total])
    ensures ok ==> HasFrag(s.incoming, old(s.at)) && last == FragLast(s.incoming, old(s.at))
    ensures ok ==> sum == total + FragLen(s.incoming, old(s.at)) <= buf.Length
    ensures ok ==> s.at == old(s.at) + 4 + (sum - total) && buf[total..sum] == s.incoming[old(s.at) + 4..s.at]
    ensures NeverStalls(s) ==>
              ok == (HasFrag(s.incoming, old(s.at)) && total + FragLen(s.incoming, old(s.at)) <= buf.Length)
  {
    sum := total;
    var flen;
    ok, last, flen := ReadMark(s);
    if !ok {
      return;
    }
    if total + flen > buf.Length {
      return false, last, sum;
    }
    ok := RecvAll(s, buf, total, flen);
    sum := total + flen;
  }

  /** With `sofar` read and the stream at `p`, the message that started at `start` is still what the
      rest makes of it. */
  ghost predicate Continues(stream: seq<byte>, start: nat, sofar: seq<byte>, p: nat) {
    Message(stream, start) == match Message(stream, p)
                              case None => None
                              case Some((more, end)) => Some((sofar + more, end))
  }

  lemma ContinueStart(stream: seq<byte>, start: nat)
    ensures Continues(stream, start, [], start)
  {
    if Message(stream, start).Some? {
      assert [] + Message(stream, start).value.0 == Message(stream, start).value.0;
    }
  }

  lemma ContinueOn(stream: seq<byte>, start: nat, sofar: seq<byte>, p: nat)
    requires Continues(stream, start, sofar, p) && HasFrag(stream, p)
    ensures var q := p + 4 + FragLen(stream, p);
      var now := sofar + stream[p + 4..q];
      if FragLast(stream, p) then Message(stream, start) == Some((now, q)) else Continues(stream, start, now, q)
  {
    var q := p + 4 + FragLen(stream, p);
    if !FragLast(stream, p) && Message(stream, q).Some? {
      Assoc(sofar, stream[p + 4..q], Message(stream, q).value.0);
    }
  }

  /** A stream holds a message that fits. */
  ghost predicate Holds(stream: seq<byte>, start: nat, room: nat) {
    Message(stream, start).Some? && |Message(stream, start).value.0| <= room
  }

  /** One more fragment of the message that started at `start`. */
  method NextFragment(s: Socket, buf: array<byte>, total: nat, ghost start: nat) returns (ok: bool, last: bool, sum: nat)
    requires s.Valid() && total <= buf.Length && Continues(s.incoming, start, buf[..total], s.at)
    modifies s, buf
    ensures s.Valid() && (ok ==> s.at > old(s.at) && sum <= buf.Length)
    ensures ok && !last ==> Continues(s.incoming, start, buf[..sum], s.at)
    ensures ok && last ==> Message(s.incoming, start) == Some((buf[..sum], s.at))
    ensures !ok && NeverStalls(s) ==> !Holds(s.incoming, start, buf.Length)
  {
    ghost var p := s.at;
    ok, last, sum := ReadFragment(s, buf, total);
    if HasFrag(s.incoming, p) {
      ContinueOn(s.incoming, start, buf[..total], p);
    }
    if ok {
      assert buf[..sum] == buf[..total] + buf[total..sum];
    }
  }

  /** Read fragments into `buf` until the last one: the message the stream holds, however it was
      fragmented and however the bytes arrive. It fails only when the stream ends first, the
      message does not fit, or the connection stalls. */
  method Reassemble(s: Socket, buf: array<byte>) returns (ok: bool, total: nat)
    requires s.Valid()
    modifies s, buf
    ensures s.Valid()
    ensures ok ==> total <= buf.Length && Message(s.incoming, old(s.at)) == Some((buf[..total], s.at))
    ensures NeverStalls(s) ==> ok == Holds(s.incoming, old(s.at), buf.Length)
  {
    total, ok := 0, true;
    var last := false;
    ghost var start := s.at;
    ContinueStart(s.incoming, start);
    assert buf[..0] == [];
    while !last
      invariant s.Valid() && total <= buf.Length && ok
      invariant !last ==> Continues(s.incoming, start, buf[..total], s.at)
      invariant last ==> Message(s.incoming, start) == Some((buf[..total], s.at))
      decreases !last, |s.incoming| - s.at
    {
      ok, last, total := NextFragment(s, buf, total, start);
      if !ok {
        return;
      }
    }
  }

  // ----- The receive self-check -----------------------------------------------------------

  const PROG_NFS: nat := 100003
  const PROC_WRITE: nat := 7

  function Peek(buf: seq<byte>, off: nat): nat
    requires off + 4 <= |buf|
  {
    OfBe32(buf[off..off + 4])
  }

  /** XDR rounds every opaque up to four bytes. */
  function Round4(n: nat): (r: nat)
    ensures r == n + Pad(n)
  {
    (n + 3) / 4 * 4
  }

  /** The position after an opaque at `pos`, or none when the message is too short for it. */
  function SkipOpaque(buf: seq<byte>, pos: nat): Option<nat> {
    if pos + 4 > |buf| then None else
    var len := Peek(buf, pos);
    if len > |buf| || pos + 4 + Round4(len) > |buf| then None else Some(pos + 4 + Round4(len))
  }

  /** From offset, count and stable to the end of the data. */
  function EndFromArgs(buf: seq<byte>, pos: nat): Option<nat> {
    if pos + 20 > |buf| then None else
    var len := Peek(buf, pos + 16);
    if len > |buf| then None else Some(pos + 20 + Round4(len))
  }

  function EndFromHandle(buf: seq<byte>, pos: nat): Option<nat> {
    match SkipOpaque(buf, pos)
    case None => None
    case Some(next) => EndFromArgs(buf, next)
  }

  function EndFromVerf(buf: seq<byte>, pos: nat): Option<nat> {
    if pos + 8 > |buf| then None else
    match SkipOpaque(buf, pos + 4)
    case None => None
    case Some(next) => EndFromHandle(buf, next)
  }

  /** The length a WRITE call's own fields account for, or none when it is too short to walk. */
  function ExpectedLen(buf: seq<byte>): Option<nat> {
    if 24 + 8 > |buf| then None else
    match SkipOpaque(buf, 28)
    case None => None
    case Some(next) => EndFromVerf(buf, next)
  }

  /** The handle magic at a position. */
  predicate MagicAt(buf: seq<byte>, i: nat) {
    i + 4 <= |buf| && buf[i] == 0x4E && buf[i + 1] == 0x46 && buf[i + 2] == 0x53 && buf[i + 3] == 0x33
  }

  /** A CALL header for the NFS program at a position. */
  predicate HeaderAt(buf: seq<byte>, i: nat) {
    && i + 24 <= |buf|
    && Peek(buf, i + 4) == 0 && Peek(buf, i + 8) == 2 && Peek(buf, i + 12) == PROG_NFS
  }

  predicate IsWrite(buf: seq<byte>) {
    |buf| >= 24 && Peek(buf, 12) == PROG_NFS && Peek(buf, 20) == PROC_WRITE
  }

  /** `a` and `b` are the first two places the magic occurs. */
  ghost predicate FirstTwo(buf: seq<byte>, a: nat, b: nat) {
    && a < b && MagicAt(buf, a) && MagicAt(buf, b)
    && forall i | 0 <= i < b && i != a :: !MagicAt(buf, i)
  }

  /** A message is refused when it is a WRITE whose fields disagree with its length, or whose
      second handle sits as far into a CALL header as the first. */
  ghost predicate Refused(buf: seq<byte>) {
    IsWrite(buf) && (LengthDisagrees(buf) || EmbedsCall(buf))
  }

  predicate LengthDisagrees(buf: seq<byte>) {
    ExpectedLen(buf).Some? && ExpectedLen(buf).value != |buf|
  }

  ghost predicate EmbedsCall(buf: seq<byte>) {
    exists a: nat, b: nat :: FirstTwo(buf, a, b) && HeaderAt(buf, b - a)
  }

  /** The scan: how often the magic occurs, and where the first two times. */
  method Scan(buf: seq<byte>) returns (hits: nat, off1: nat, off2: nat)
    ensures hits == 0 ==> forall j: nat :: !MagicAt(buf, j)
    ensures hits == 1 ==> MagicAt(buf, off1) && forall j: nat | j != off1 :: !MagicAt(buf, j)
    ensures hits >= 2 ==> FirstTwo(buf, off1, off2)
  {
    hits, off1, off2 := 0, 0, 0;
    for i := 0 to |buf|
      invariant hits == 0 ==> forall j | 0 <= j < i :: !MagicAt(buf, j)
      invariant hits == 1 ==> off1 < i && MagicAt(buf, off1) && forall j | 0 <= j < i && j != off1 :: !MagicAt(buf, j)
      invariant hits >= 2 ==> FirstTwo(buf, off1, off2)
    {
      if MagicAt(buf, i) {
        if hits == 0 {
          off1 := i;
        } else if hits == 1 {
          off2 := i;
        }
        hits := hits + 1;
      }
    }
  }

  lemma ScanDecides(buf: seq<byte>, hits: nat, off1: nat, off2: nat)
    requires hits == 0 ==> forall j: nat :: !MagicAt(buf, j)
    requires hits == 1 ==> forall j: nat | j != off1 :: !MagicAt(buf, j)
    requires hits >= 2 ==> FirstTwo(buf, off1, off2)
    ensures EmbedsCall(buf) == (hits >= 2 && HeaderAt(buf, off2 - off1))
  {
    forall a: nat, b: nat | FirstTwo(buf, a, b)
      ensures hits >= 2 && a == off1 && b == off2
    {
    }
  }

  /** The check itself. */
  method SelfCheck(buf: seq<byte>) returns (accepted: bool)
    ensures accepted == !Refused(buf)
  {
    if !IsWrite(buf) {
      return true;
    }
    var badLen := LengthDisagrees(buf);
    var hits, off1, off2 := Scan(buf);
    ScanDecides(buf, hits, off1, off2);
    var confirmed := hits >= 2 && HeaderAt(buf, off2 - off1);
    accepted := !(badLen || confirmed);
  }

  // ----- What it guarantees ---------------------------------------------------------------

  /** A WRITE call as it is encoded. */
  datatype WriteCall = WriteCall(
    xid: nat, vers: nat,
    credFlavor: nat, cred: seq<byte>,
    verfFlavor: nat, verf: seq<byte>,
    handle: seq<byte>,
    offset: nat, count: nat, stable: nat,
    data: seq<byte>)
  {
    /** The six words of the CALL header, and the credential's flavor. */
    function Front(): seq<byte> {
      Be32(xid) + Be32(0) + Be32(2) + Be32(PROG_NFS) + Be32(vers) + Be32(PROC_WRITE) + Be32(credFlavor)
    }

    function Args(): seq<byte> {
      Encode(Hyper(offset)) + Be32(count) + Be32(stable)
    }

    function Message(): seq<byte> {
      Front() + Encode(Opaque(cred)) + Be32(verfFlavor) + Encode(Opaque(verf))
      + Encode(Opaque(handle)) + Args() + Encode(Opaque(data))
    }
  }

  /** `e` is an opaque of `n` data bytes on the wire: its length, the data, the padding. */
  ghost predicate OpaqueOf(e: seq<byte>, n: nat) {
    |e| == 4 + n + Pad(n) && OfBe32(e[0..4]) == n
  }

  lemma EncodeIsOpaque(data: seq<byte>)
    requires |data| < U32
    ensures OpaqueOf(Encode(Opaque(data)), |data|)
  {
    Be32RoundTrip(|data|);
    assert Encode(Opaque(data))[0..4] == Be32(|data|);
  }

  lemma SkipIn(m: seq<byte>, a: seq<byte>, e: seq<byte>, n: nat)
    requires OpaqueOf(e, n) && a + e <= m
    ensures SkipOpaque(m, |a|) == Some(|a + e|)
  {
    assert m[..|a + e|][|a|..|a| + 4] == m[|a|..|a| + 4];
    assert (a + e)[|a|..|a| + 4] == e[0..4];
  }

  lemma PrefixOn(a: seq<byte>, b: seq<byte>, m: seq<byte>)
    requires a + b <= m
    ensures a <= m
  {
    assert m[..|a|] == m[..|a + b|][..|a|];
  }

  lemma FromArgsExact(m: seq<byte>, p: seq<byte>, args: seq<byte>, e: seq<byte>, n: nat)
    requires |args| == 16 && OpaqueOf(e, n) && m == p + args + e
    ensures EndFromArgs(m, |p|) == Some(|m|)
  {
    assert m[|p| + 16..|p| + 20] == e[0..4];
  }

  /** The walk over a call laid out as: front, credential, flavor, verifier, handle, arguments,
      data. */
  lemma WalkExact(m: seq<byte>, front: seq<byte>, c: seq<byte>, nc: nat, flavor: seq<byte>, v: seq<byte>, nv: nat,
                  h: seq<byte>, nh: nat, args: seq<byte>, d: seq<byte>, nd: nat)
    requires |front| == 28 && |flavor| == 4 && |args| == 16
    requires OpaqueOf(c, nc) && OpaqueOf(v, nv) && OpaqueOf(h, nh) && OpaqueOf(d, nd)
    requires m == front + c + flavor + v + h + args + d
    ensures ExpectedLen(m) == Some(|m|)
  {
    var p1 := front + c;
    var p2 := p1 + flavor;
    var p3 := p2 + v;
    var p4 := p3 + h;
    FromArgsExact(m, p4, args, d, nd);
    PrefixOn(p4 + args, d, m);
    PrefixOn(p4, args, m);
    SkipIn(m, p3, h, nh);
    PrefixOn(p3, h, m);
    SkipIn(m, p2, v, nv);
    PrefixOn(p2, v, m);
    PrefixOn(p1, flavor, m);
    SkipIn(m, front, c, nc);
    FollowWalk(m, |p1|, |p2|, |p3|, |p4|);
  }

  lemma FollowWalk(m: seq<byte>, n1: nat, n2: nat, n3: nat, n4: nat)
    requires n1 + 4 == n2 && n2 + 4 <= n3 <= |m|
    requires SkipOpaque(m, 28) == Some(n1) && SkipOpaque(m, n2) == Some(n3) && SkipOpaque(m, n3) == Some(n4)
    requires EndFromArgs(m, n4) == Some(|m|)
    ensures ExpectedLen(m) == Some(|m|)
  {
  }

  /** The recomputed length of every well-formed WRITE is its length. */
  lemma ExpectedLenExact(c: WriteCall)
    requires |c.cred| < U32 && |c.verf| < U32 && |c.handle| < U32 && |c.data| < U32
    ensures ExpectedLen(c.Message()) == Some(|c.Message()|)
  {
    EncodeIsOpaque(c.cred);
    EncodeIsOpaque(c.verf);
    EncodeIsOpaque(c.handle);
    EncodeIsOpaque(c.data);
    WalkExact(c.Message(), c.Front(), Encode(Opaque(c.cred)), |c.cred|, Be32(c.verfFlavor),
              Encode(Opaque(c.verf)), |c.verf|, Encode(Opaque(c.handle)), |c.handle|,
              c.Args(), Encode(Opaque(c.data)), |c.data|);
  }

  /** A well-formed WRITE with at most one handle magic in it is accepted. */
  lemma GoodWriteAccepted(c: WriteCall)
    requires |c.cred| < U32 && |c.verf| < U32 && |c.handle| < U32 && |c.data| < U32
    requires forall i: nat, j: nat | MagicAt(c.Message(), i) && MagicAt(c.Message(), j) :: i == j
    ensures !Refused(c.Message())
  {
    ExpectedLenExact(c);
    var m := c.Message();
    forall a: nat, b: nat | a < b
      ensures !FirstTwo(m, a, b)
    {
    }
  }

  /** A message delivered up to `k` and then again from its beginning, to its full length. */
  function Replay(m: seq<byte>, k: nat): (r: seq<byte>)
    requires k <= |m|
    ensures |r| == |m|
    ensures forall i | 0 <= i < |m| :: r[i] == if i < k then m[i] else m[i - k]
  {
    m[..k] + m[..|m| - k]
  }

  /** A magic in one part of a replay is one of the message. */
  lemma MagicInReplay(m: seq<byte>, k: nat, i: nat)
    requires k <= |m|
    ensures i + 4 <= k ==> MagicAt(Replay(m, k), i) == MagicAt(m, i)
    ensures i >= k && MagicAt(Replay(m, k), i) ==> MagicAt(m, i - k)
  {
  }

  /** Every replay of a WRITE from its beginning, cut at `k`, is refused: the handle, whose magic
      at `h` is the only one in the message, is whole in both parts, and no magic straddles
      the cut. */
  lemma ReplayRefused(m: seq<byte>, h: nat, k: nat)
    requires IsWrite(m) && HeaderAt(m, 0)
    requires MagicAt(m, h) && forall i: nat | MagicAt(m, i) :: i == h
    requires h + 60 <= k <= |m| && h + 60 <= |m| - k
    requires forall i: nat | k - 4 < i < k :: !MagicAt(Replay(m, k), i)
    ensures Refused(Replay(m, k))
  {
    var r := Replay(m, k);
    assert r[12..16] == m[12..16] && r[20..24] == m[20..24];
    assert FirstTwo(r, h, k + h) by {
      forall i: nat | i < k + h && i != h
        ensures !MagicAt(r, i)
      {
        MagicInReplay(m, k, i);
      }
    }
    assert r[k + 4..k + 8] == m[4..8] && r[k + 8..k + 12] == m[8..12] && r[k + 12..k + 16] == m[12..16];
    assert HeaderAt(r, k + h - h);
  }

  /** Receive one message: what the stream holds, unless it ends first, does not fit, stalls, or
      the self-check refuses the message. */
  method RpcRecv(s: Socket, buf: array<byte>) returns (ok: bool, total: nat)
    requires s.Valid()
    modifies s, buf
    ensures s.Valid()
    ensures ok ==> total <= buf.Length && Message(s.incoming, old(s.at)) == Some((buf[..total], s.at))
    ensures ok ==> !Refused(buf[..total])
    ensures
      var m := Message(s.incoming, old(s.at));
      NeverStalls(s) ==> ok == (m.Some? && |m.value.0| <= buf.Length && !Refused(m.value.0))
  {
    ok, total := Reassemble(s, buf);
    if ok {
      ok := SelfCheck(buf[..total]);
    }
  }

  /** What the server sends: the mark and the body in one frame. */
  function Frame(body: seq<byte>): seq<byte> {
    Mark(|body|, true) + body
  }

  /** A frame is the wire form of a single fragment, so receiving it returns the body. */
  lemma FrameIsOneFragment(body: seq<byte>)
    ensures Wire([body]) == Frame(body) && Concat([body]) == body
  {
    assert [body][1..] == [];
    assert Wire([body]) == Frame(body) + [];
    assert Concat([body]) == body + [];
  }
}
