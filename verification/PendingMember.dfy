/**
 One pending member's byte stream (src/mvspww.c): an in-memory buffer that doubles up to
 16 KB and then moves to the scratch dataset, behind one random-access interface.
 */
module PendingMember {
  import opened Bytes
  import opened SpillStore
  import opened MemberImage

  class Member {
    var buf: array<byte>          // Length is the allocated capacity; empty stands for NULL
    var highWater: nat
    const spill: SpillFile

    constructor (garbled: (nat, nat) -> seq<byte>)
      ensures Stands(EMPTY)
      ensures fresh(buf) && fresh(spill) && fresh(spill.block)
    {
      var s := new SpillFile(garbled);
      spill := s;
      buf := new byte[0];
      highWater := 0;
    }

    ghost predicate Valid()
      reads this, spill
    {
      && spill.Valid() && spill.block != buf
      && if spill.open then highWater <= spill.size else highWater <= buf.Length <= SPILL_THRESHOLD
    }

    ghost function Content(): (s: seq<byte>)
      requires Valid()
      reads this, spill, buf
      ensures |s| == highWater
    {
      if spill.open then spill.Contents()[..highWater] else buf[..highWater]
    }

    /** The member is in step with `img`. */
    ghost predicate Stands(img: Image)
      reads this, spill, buf
    {
      && Valid()
      && if spill.open then img.Spilled? && StandsFor(spill, img.file) && highWater == img.size
         else img.Held? && Content() == img.bytes
    }

    lemma StandsContent(img: Image)
      requires Stands(img)
      ensures img.Valid() && Content() == img.Content()
    {
    }

    /** Grow the buffer by doubling, capped at the threshold; `memory` is whether realloc succeeds. */
    method EnsureCap(need: nat, memory: bool) returns (ok: bool)
      requires Valid() && !spill.open && need <= SPILL_THRESHOLD
      modifies this`buf
      ensures Valid() && Content() == old(Content())
      ensures ok == (memory || need <= old(buf.Length))
      ensures ok ==> need <= buf.Length
      ensures buf == old(buf) || fresh(buf)
    {
      if need <= buf.Length {
        return true;
      }
      if !memory {
        return false;
      }
      var cap := if buf.Length != 0 then buf.Length else 4096;
      while cap < need
        invariant cap > 0
        decreases need - cap
      {
        cap := cap * 2;
      }
      if cap > SPILL_THRESHOLD {
        cap := SPILL_THRESHOLD;
      }
      var bigger := new byte[cap](_ => 0);
      forall i | 0 <= i < buf.Length {
        bigger[i] := buf[i];
      }
      buf := bigger;
      ok := true;
    }

    /** Move the content to the scratch dataset and drop the buffer; on failure it stays put. */
    method SpillTransition(scratch: ScratchFate) returns (ok: bool)
      requires Valid() && !spill.open
      modifies this`buf, spill, spill.block
      ensures Valid() && Content() == old(Content()) && spill.open == ok && (scratch.Filled? ==> ok)
      ensures ok ==> StandsFor(spill, ExactFile(old(Content())))
      ensures buf == old(buf) || fresh(buf)
    {
      ok := spill.Transition(scratch, buf[..highWater]);
      if ok {
        buf := new byte[0];
      }
    }

    /** The in-memory half of a store: zero-fill the gap, then copy. */
    method StoreInMemory(off: nat, data: seq<byte>)
      requires Valid() && !spill.open && off + |data| <= buf.Length
      modifies this`highWater, buf
      ensures Valid() && Content() == Splice(old(Content()), off, data)
    {
      var end := off + |data|;
      forall i | highWater <= i < off {
        buf[i] := 0;
      }
      forall i | off <= i < end {
        buf[i] := data[i - off];
      }
      if end > highWater {
        highWater := end;
      }
      assert buf[..highWater] == Splice(old(buf[..highWater]), off, data);
    }

    /** The spilled half. */
    method StoreOnDisk(off: nat, data: seq<byte>, ghost img: Image) returns (ghost junk: seq<byte>)
      requires Stands(img) && spill.open
      modifies this`highWater, spill, spill.block
      ensures Stands(Store(img, off, data, junk)) && spill.open
    {
      junk := PerformPut(spill, off, data, img.file);
      if off + |data| > highWater {
        highWater := off + |data|;
      }
    }

    /** Place `data` at `off`: the member follows its image, through doubling and the move to disk,
        and a refused store changes nothing. `memory` and `scratch` are the fates of
        realloc and of the scratch dataset. */
    method StoreRange(off: nat, data: seq<byte>, memory: bool, scratch: ScratchFate, ghost img: Image)
        returns (ok: bool, ghost junk: seq<byte>)
      requires Stands(img)
      modifies this, buf, spill, spill.block
      ensures Stands(if ok then Store(img, off, data, junk) else img)
      ensures buf == old(buf) || fresh(buf)
      ensures !ok ==> !memory || !scratch.Filled?
    {
      junk := [];
      if !spill.open && off + |data| <= SPILL_THRESHOLD {
        ok := EnsureCap(off + |data|, memory);
        if ok {
          StoreInMemory(off, data);
        }
        return;
      }
      ok := true;
      ghost var on := img;
      if !spill.open {
        ok := SpillTransition(scratch);
        on := Spilled(ExactFile(img.bytes), |img.bytes|);
      }
      if ok {
        junk := StoreOnDisk(off, data, on);
        SpilledStore(img, on, off, data, junk);
      }
    }

    method ReadRange(off: nat, len: nat, ghost img: Image) returns (r: Option<seq<byte>>)
      requires Stands(img) && off + len <= highWater
      modifies spill
      ensures Stands(Read(img, len)) && buf == old(buf)
      ensures r == Some(img.Content()[off..off + len])
    {
      if !spill.open {
        r := Some(buf[off..off + len]);
        FrontSlice(buf[..], highWater, off, off + len);
        assert buf[..][..highWater] == buf[..highWater] && buf[..][off..off + len] == buf[off..off + len];
      } else {
        FrontSlice(spill.Contents(), highWater, off, off + len);
        r := spill.Read(off, len);
      }
    }

    /** Resize to exactly `n` bytes, spilling when the new size crosses the threshold. */
    method SetSize(n: nat, memory: bool, scratch: ScratchFate, ghost img: Image) returns (ok: bool, ghost junk: seq<byte>)
      requires Stands(img)
      modifies this, buf, spill, spill.block
      ensures Stands(if ok then MemberImage.SetSize(img, n, junk) else img)
      ensures buf == old(buf) || fresh(buf)
      ensures !ok ==> n > old(highWater) && (!memory || !scratch.Filled?)
      ensures old(spill.open) && n < old(highWater) ==> spill.disk == old(spill.disk) && spill.open
      ensures old(spill.open) && n > old(spill.size) ==>
                spill.open && spill.Contents() == Overlay(old(spill.Raw()), n, n, [])
    {
      ok, junk := true, [];
      StandsContent(img);
      if n == highWater {
        return;
      }
      if spill.open {
        junk := PerformSetSize(spill, n, img.file);
        highWater := n;
      } else if n > highWater {
        assert Resize(img.bytes, n) == Splice(img.bytes, n, []);
        ok, junk := StoreRange(n, [], memory, scratch, img);
      } else {
        highWater := n;
        assert Content() == Resize(img.bytes, n);
      }
    }

    /** CREATE over a member already pending: only the logical size goes back to zero. */
    method Recreate(ghost img: Image)
      requires Stands(img)
      modifies this`highWater
      ensures Stands(Recreated(img))
    {
      highWater := 0;
    }
  }

  /** Moving to disk first and storing then is what storing means. */
  lemma SpilledStore(img: Image, on: Image, off: nat, data: seq<byte>, junk: seq<byte>)
    requires img.Valid() && on.Spilled? && (img.Spilled? ==> on == img)
    requires img.Held? ==> on == Spilled(ExactFile(img.bytes), |img.bytes|) && off + |data| > SPILL_THRESHOLD
    ensures Store(on, off, data, junk) == Store(img, off, data, junk)
  {
  }

  // ----- Runs -----------------------------------------------------------------------------

  /** Requests a pending member can receive, with the fates of realloc and of the scratch dataset. */
  datatype Req =
    | Put(off: nat, data: seq<byte>, memory: bool, scratch: ScratchFate)
    | Size(n: nat, memory: bool, scratch: ScratchFate)
    | Create
    | Load(off: nat, len: nat)

  /** The image after a request that is done. */
  function Next(img: Image, q: Req, junk: seq<byte>): Image {
    match q
    case Put(off, data, _, _) => Store(img, off, data, junk)
    case Size(n, _, _) => MemberImage.SetSize(img, n, junk)
    case Create => Recreated(img)
    case Load(off, len) => if off + len <= |img.Content()| then Read(img, len) else img
  }

  /** The bytes of a flat file after a request that is done. */
  function FlatNext(bytes: seq<byte>, q: Req): seq<byte> {
    match q
    case Put(off, data, _, _) => Splice(bytes, off, data)
    case Size(n, _, _) => Resize(bytes, n)
    case Create => []
    case Load(_, _) => bytes
  }

  /** The image before a request says that it will do what a flat file does. */
  predicate Exactly(img: Image, q: Req) {
    match q
    case Put(off, data, _, _) => StoresExactly(img, off, data)
    case Size(n, _, _) => SizesExactly(img, n)
    case _ => true
  }

  lemma ExactlyIsFlat(img: Image, q: Req, junk: seq<byte>)
    requires img.Valid() && Exactly(img, q)
    ensures Next(img, q, junk).Content() == FlatNext(img.Content(), q)
  {
    match q {
      case Put(off, data, _, _) => ExactStore(img, off, data, junk);
      case Size(n, _, _) => ExactSize(img, n, junk);
      case _ =>
    }
  }

  /** One request: the image moves on if it was done, a read inside the member answers with its
      bytes, and only a store or a growth that the system would not support is refused. */
  ghost predicate StepOf(img: Image, q: Req, ok: bool, reply: seq<byte>, next: Image) {
    && (if ok then exists junk :: next == Next(img, q, junk) else next == img)
    && (!ok ==> (q.Put? || q.Size?) && (!q.memory || !q.scratch.Filled?))
    && (q.Load? && q.off + q.len <= |img.Content()| ==> reply == img.Content()[q.off..q.off + q.len])
  }

  /** Every request at all keeps a pending member in step with an image. */
  method Serve(m: Member, q: Req, ghost img: Image) returns (ok: bool, reply: seq<byte>, ghost next: Image)
    requires m.Stands(img)
    modifies m, m.buf, m.spill, m.spill.block
    ensures m.Stands(next) && StepOf(img, q, ok, reply, next)
    ensures m.buf == old(m.buf) || fresh(m.buf)
  {
    ok, reply := true, [];
    ghost var junk := [];
    m.StandsContent(img);
    match q {
      case Put(off, data, memory, scratch) =>
        ok, junk := m.StoreRange(off, data, memory, scratch, img);
      case Size(n, memory, scratch) =>
        ok, junk := m.SetSize(n, memory, scratch, img);
      case Create =>
        m.Recreate(img);
      case Load(off, len) =>
        if off + len <= m.highWater {
          var r := m.ReadRange(off, len, img);
          reply := r.value;
        }
    }
    next := if ok then Next(img, q, junk) else img;
  }

  /** The images a member goes through. */
  ghost predicate Trace(images: seq<Image>, reqs: seq<Req>, oks: seq<bool>, replies: seq<seq<byte>>) {
    && |oks| == |replies| == |images| - 1 <= |reqs| && images[0] == EMPTY
    && forall k | 0 <= k < |oks| :: StepOf(images[k], reqs[k], oks[k], replies[k], images[k + 1])
  }

  /** The flat file after the first `n` requests. */
  function FlatAfter(reqs: seq<Req>, oks: seq<bool>, n: nat): seq<byte>
    requires n <= |oks| <= |reqs|
  {
    if n == 0 then []
    else if oks[n - 1] then FlatNext(FlatAfter(reqs, oks, n - 1), reqs[n - 1])
    else FlatAfter(reqs, oks, n - 1)
  }

  /** The first `m` requests leave the member empty, whatever came before the last of them. */
  predicate EmptyAt(reqs: seq<Req>, oks: seq<bool>, m: nat)
    requires m <= |oks| <= |reqs|
  {
    m == 0 || (oks[m - 1] && (reqs[m - 1].Create? || (reqs[m - 1].Size? && reqs[m - 1].n == 0)))
  }

  /** Each request from `m` up to `n` met an image on which it does what a flat file does. */
  ghost predicate AllExactly(images: seq<Image>, reqs: seq<Req>, m: nat, n: nat)
    requires n <= |images| && n <= |reqs|
  {
    forall k | m <= k < n :: Exactly(images[k], reqs[k])
  }

  lemma {:induction false} ImagesValid(images: seq<Image>, reqs: seq<Req>, oks: seq<bool>, replies: seq<seq<byte>>, n: nat)
    requires Trace(images, reqs, oks, replies) && n < |images|
    ensures images[n].Valid()
  {
    if n > 0 {
      ImagesValid(images, reqs, oks, replies, n - 1);
      assert StepOf(images[n - 1], reqs[n - 1], oks[n - 1], replies[n - 1], images[n]);
    }
  }

  /** A member that was emptied is the empty flat file, whatever its scratch file had come to. */
  lemma EmptiedIsFlat(images: seq<Image>, reqs: seq<Req>, oks: seq<bool>, replies: seq<seq<byte>>, m: nat)
    requires Trace(images, reqs, oks, replies) && m < |images| && EmptyAt(reqs, oks, m)
    ensures images[m].Content() == FlatAfter(reqs, oks, m) == []
  {
    if m > 0 {
      assert StepOf(images[m - 1], reqs[m - 1], oks[m - 1], replies[m - 1], images[m]);
      ImagesValid(images, reqs, oks, replies, m - 1);
      assert Resize(FlatAfter(reqs, oks, m - 1), 0) == [];
    }
  }

  /** From any point at which it was emptied the member holds the flat file's bytes, as long as every
      request since met such an image. */
  lemma {:induction false} TraceIsFlat(
    images: seq<Image>, reqs: seq<Req>, oks: seq<bool>, replies: seq<seq<byte>>, m: nat, n: nat)
    requires Trace(images, reqs, oks, replies) && m <= n < |images|
    requires EmptyAt(reqs, oks, m) && AllExactly(images, reqs, m, n)
    ensures images[n].Content() == FlatAfter(reqs, oks, n)
    decreases n
  {
    if n == m {
      EmptiedIsFlat(images, reqs, oks, replies, m);
    } else {
      TraceIsFlat(images, reqs, oks, replies, m, n - 1);
      assert StepOf(images[n - 1], reqs[n - 1], oks[n - 1], replies[n - 1], images[n]);
      ImagesValid(images, reqs, oks, replies, n - 1);
      StepIsFlat(images[n - 1], reqs[n - 1], oks[n - 1], replies[n - 1], images[n]);
    }
  }

  lemma StepIsFlat(img: Image, q: Req, ok: bool, reply: seq<byte>, next: Image)
    requires img.Valid() && Exactly(img, q) && StepOf(img, q, ok, reply, next)
    ensures next.Content() == if ok then FlatNext(img.Content(), q) else img.Content()
  {
    if ok {
      var junk :| next == Next(img, q, junk);
      ExactlyIsFlat(img, q, junk);
    }
  }

  /** Seen from the requests alone: none of the first `n` cuts the member, or creates it over bytes. */
  predicate NeverCut(reqs: seq<Req>, oks: seq<bool>, n: nat)
    requires n <= |oks| <= |reqs|
  {
    forall k | 0 <= k < n ::
      && (reqs[k].Size? ==> reqs[k].n >= |FlatAfter(reqs, oks, k)|)
      && (reqs[k].Create? ==> FlatAfter(reqs, oks, k) == [])
  }

  /** Then every image is sound, and the member holds the flat file's bytes throughout. */
  lemma {:induction false} NeverCutIsFlat(images: seq<Image>, reqs: seq<Req>, oks: seq<bool>, replies: seq<seq<byte>>, n: nat)
    requires Trace(images, reqs, oks, replies) && n < |images| && NeverCut(reqs, oks, n)
    ensures Sound(images[n]) && images[n].Content() == FlatAfter(reqs, oks, n) && AllExactly(images, reqs, 0, n)
  {
    if n > 0 {
      NeverCutIsFlat(images, reqs, oks, replies, n - 1);
      assert StepOf(images[n - 1], reqs[n - 1], oks[n - 1], replies[n - 1], images[n]);
      ImagesValid(images, reqs, oks, replies, n - 1);
      SoundStep(images[n - 1], reqs[n - 1], oks[n - 1], replies[n - 1], images[n]);
      StepIsFlat(images[n - 1], reqs[n - 1], oks[n - 1], replies[n - 1], images[n]);
    }
  }

  lemma SoundStep(img: Image, q: Req, ok: bool, reply: seq<byte>, next: Image)
    requires img.Valid() && Sound(img) && StepOf(img, q, ok, reply, next)
    requires (q.Size? ==> q.n >= |img.Content()|) && (q.Create? ==> img.Content() == [])
    ensures Exactly(img, q) && Sound(next)
  {
    if q.Put? {
      SoundStays(img, q.off, q.data, 0, []);
    } else if q.Size? {
      SoundStays(img, 0, [], q.n, []);
    }
    if ok {
      var junk :| next == Next(img, q, junk);
      if q.Put? {
        SoundStays(img, q.off, q.data, 0, junk);
      } else if q.Size? {
        SoundStays(img, 0, [], q.n, junk);
      }
    }
  }

  lemma TraceOn(images: seq<Image>, reqs: seq<Req>, oks: seq<bool>, replies: seq<seq<byte>>, ok: bool, reply: seq<byte>, next: Image)
    requires Trace(images, reqs, oks, replies) && |oks| < |reqs|
    requires StepOf(images[|oks|], reqs[|oks|], ok, reply, next)
    ensures Trace(images + [next], reqs, oks + [ok], replies + [reply])
    ensures (images + [next])[|oks| + 1] == next
  {
    var ims, os, rs := images + [next], oks + [ok], replies + [reply];
    forall k | 0 <= k < |os|
      ensures StepOf(ims[k], reqs[k], os[k], rs[k], ims[k + 1])
    {
      if k < |oks| {
        assert StepOf(images[k], reqs[k], oks[k], replies[k], images[k + 1]);
      }
    }
  }

  /** Any run of any requests, across buffer doubling, the move to disk, refusals, shrinks and
      re-CREATE, is a trace of images; and a read answers as a flat file does if every request since
      the start, or since the member was last emptied, met such an image, as they all do up to the
      first cut or CREATE over bytes. */
  method RunMember(reqs: seq<Req>, garbled: (nat, nat) -> seq<byte>)
    returns (oks: seq<bool>, replies: seq<seq<byte>>, ghost images: seq<Image>)
    ensures Trace(images, reqs, oks, replies) && |oks| == |reqs|
    ensures forall m, n | 0 <= m <= n < |reqs| && EmptyAt(reqs, oks, m) && reqs[n].Load? && AllExactly(images, reqs, m, n) ::
              var flat := FlatAfter(reqs, oks, n);
              reqs[n].off + reqs[n].len <= |flat| ==> replies[n] == flat[reqs[n].off..reqs[n].off + reqs[n].len]
    ensures forall n | 0 <= n < |reqs| && NeverCut(reqs, oks, n) :: AllExactly(images, reqs, 0, n)
  {
    var m := new Member(garbled);
    oks, replies, images := [], [], [EMPTY];
    while |oks| < |reqs|
      invariant |oks| <= |reqs| && Trace(images, reqs, oks, replies)
      invariant fresh(m) && fresh(m.buf) && fresh(m.spill) && fresh(m.spill.block)
      invariant m.Stands(images[|oks|])
      decreases |reqs| - |oks|
    {
      var ok, reply, next := Serve(m, reqs[|oks|], images[|oks|]);
      TraceOn(images, reqs, oks, replies, ok, reply, next);
      oks, replies, images := oks + [ok], replies + [reply], images + [next];
    }
    forall n | 0 <= n < |reqs| && NeverCut(reqs, oks, n)
      ensures AllExactly(images, reqs, 0, n)
    {
      NeverCutIsFlat(images, reqs, oks, replies, n);
    }
    forall m, n | 0 <= m <= n < |reqs| && EmptyAt(reqs, oks, m) && reqs[n].Load? && AllExactly(images, reqs, m, n)
      ensures var flat := FlatAfter(reqs, oks, n);
              reqs[n].off + reqs[n].len <= |flat| ==> replies[n] == flat[reqs[n].off..reqs[n].off + reqs[n].len]
    {
      TraceIsFlat(images, reqs, oks, replies, m, n);
      assert StepOf(images[n], reqs[n], oks[n], replies[n], images[n + 1]);
    }
  }

  // ----- Runs that a flat file would not allow --------------------------------------------

  const SEVENS: Image := Spilled(ExactFile(Sevens(20000)), 20000)

  /** A member after one WRITE of 20000 sevens. */
  method WriteSevens(garbled: (nat, nat) -> seq<byte>) returns (m: Member)
    ensures fresh(m) && fresh(m.buf) && fresh(m.spill) && fresh(m.spill.block)
    ensures m.Stands(SEVENS)
  {
    m := new Member(garbled);
    var data := Sevens(20000);
    var ok, junk := m.StoreRange(0, data, true, Filled, EMPTY);
    assert Splice([], 0, data) == data;
  }

  /** WRITE of 20000 bytes, SETATTR to 17000, SETATTR to 18000: the cut bytes come back. */
  method CutBytesResurface(garbled: (nat, nat) -> seq<byte>) returns (b: byte)
    ensures b == 7 != Resize(Resize(Sevens(20000), 17000), 18000)[17500]
  {
    var m := WriteSevens(garbled);
    assert m.spill.disk[17500] == m.spill.Contents()[17500];
    var ok, junk := m.SetSize(17000, true, Filled, SEVENS);
    ghost var img := MemberImage.SetSize(SEVENS, 17000, junk);
    assert m.spill.size == 17000;
    assert m.spill.Raw()[17500] == 7;
    ok, junk := m.SetSize(18000, true, Filled, img);
    assert m.spill.Contents()[17500] == 7;
    img := MemberImage.SetSize(img, 18000, junk);
    m.StandsContent(img);
    var r := m.ReadRange(17500, 1, img);
    b := r.value[0];
  }

  /** The member emptied by CREATE, and after a byte at 0. */
  const BEHIND: Image := Recreated(SEVENS)
  const ONE: Image := Store(BEHIND, 0, [1], [])

  lemma OneIsExact()
    ensures StoresExactly(BEHIND, 0, [1]) && !StoresExactly(ONE, 100, [2])
    ensures ONE.Spilled? && ONE.file.Exact() && |ONE.file.bytes| == 20000 && ONE.file.bytes[50] == 7
    ensures forall junk :: Store(BEHIND, 0, [1], junk) == ONE
  {
    assert ONE.file.bytes == Splice(Sevens(20000), 0, [1]);
    assert ONE.file.bytes[50] == 7;
  }

  lemma TwoShows(junk: seq<byte>)
    ensures |Store(ONE, 100, [2], junk).Content()| == 101 && Store(ONE, 100, [2], junk).Content()[50] == 7
  {
    OneIsExact();
    assert Splice(ONE.file.bytes, 100, [2])[50] == 7;
  }

  /** WRITE of 20000 bytes, CREATE, and WRITE of one byte at 0, which is as it should be. */
  method RecreateAndWrite(garbled: (nat, nat) -> seq<byte>) returns (m: Member)
    ensures fresh(m) && fresh(m.buf) && fresh(m.spill) && fresh(m.spill.block)
    ensures m.Stands(ONE)
  {
    m := WriteSevens(garbled);
    m.Recreate(SEVENS);
    OneIsExact();
    var ok, junk := m.StoreRange(0, [1], true, Filled, BEHIND);
  }

  /** A further byte at 100 brings the old member's bytes back between them. */
  method OldBytesResurface(garbled: (nat, nat) -> seq<byte>) returns (b: byte)
    ensures b == 7 != Splice(Splice([], 0, [1]), 100, [2])[50]
    ensures StoresExactly(BEHIND, 0, [1]) && !StoresExactly(ONE, 100, [2])
  {
    OneIsExact();
    var m := RecreateAndWrite(garbled);
    var ok, junk := m.StoreRange(100, [2], true, Filled, ONE);
    TwoShows(junk);
    m.StandsContent(Store(ONE, 100, [2], junk));
    var r := m.ReadRange(50, 1, Store(ONE, 100, [2], junk));
    b := r.value[0];
  }
}
