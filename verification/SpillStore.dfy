/**
 The write-spill store (src/mvsspl.c): a pending member whose bytes outgrew memory lives in
 a scratch dataset that is only ever written in whole 4096-byte blocks.

 The scratch storage delays visibility: a block stored since the dataset was last reopened
 cannot be read back, except for the one block still resident in the stream's buffer. A
 read of any other such block returns whatever `garbled` says, and the theorems below hold
 for every `garbled`.
 */
module SpillStore {
  import opened Bytes

  /** Whole blocks needed to hold `n` bytes. */
  function BlocksFor(n: nat): (k: nat)
    ensures (k - 1) * 4096 < n <= k * 4096 || n == k == 0
  {
    (n + 4095) / 4096
  }

  /** The file size after `len` bytes are written at `off`. */
  function SizeAfter(size: nat, off: nat, len: nat): nat {
    Max(size, off + len)
  }

  /** First block a write must touch: the data's own first block when that already exists,
      otherwise the current extent, so that a gap ahead is filled with zero blocks. */
  function FirstBlock(size: nat, off: nat, len: nat): (first: nat)
    ensures first <= BlocksFor(size)
    ensures len > 0 ==> first * 4096 <= off
  {
    if len > 0 && off / 4096 < BlocksFor(size) then off / 4096 else BlocksFor(size)
  }

  /** Last block it must touch: the new extent's when extending, else the data's. */
  function LastBlock(size: nat, off: nat, len: nat): (last: int)
    requires len > 0 || off > size
    ensures off + len <= (last + 1) * 4096
    ensures FirstBlock(size, off, len) <= last + 1
    ensures off + len > size ==> last + 1 == BlocksFor(off + len)
    ensures off + len <= size ==> 0 <= last < BlocksFor(size) && len > 0
    ensures FirstBlock(size, off, len) + 1 >= BlocksFor(size) ==> last + 1 >= BlocksFor(size)
  {
    if off + len > size then BlocksFor(off + len) - 1 else (off + len - 1) / 4096
  }

  /** Byte `i` when `data` is laid over `raw` at `off`, with zeros past both. */
  function Laid(raw: seq<byte>, off: nat, data: seq<byte>, i: nat): byte {
    if off <= i < off + |data| then data[i - off] else if i < |raw| then raw[i] else 0
  }

  function Overlay(raw: seq<byte>, n: nat, off: nat, data: seq<byte>): (r: seq<byte>)
    ensures |r| == n
  {
    seq(n, i requires 0 <= i < n => Laid(raw, off, data, i))
  }

  lemma LaidOut(disk: seq<byte>, seen: seq<byte>, n: nat, off: nat, data: seq<byte>)
    requires n <= |disk| && forall i | 0 <= i < n :: disk[i] == Laid(seen, off, data, i)
    ensures disk[..n] == Overlay(seen, n, off, data)
  {
  }

  /** Past the new extent there are zeros when it ends in a new block, or when there were zeros
      past the old one. */
  lemma SlackLaid(disk: seq<byte>, seen: seq<byte>, size: nat, n: nat, off: nat, data: seq<byte>)
    requires |seen| == BlocksFor(size) * 4096
    requires size <= n && off + |data| <= n && BlocksFor(n) * 4096 <= |disk|
    requires forall i | 0 <= i < BlocksFor(n) * 4096 :: disk[i] == Laid(seen, off, data, i)
    ensures BlocksFor(n) > BlocksFor(size) || (forall i | size <= i < |seen| :: seen[i] == 0) ==>
              forall i | n <= i < BlocksFor(n) * 4096 :: disk[i] == 0
  {
  }

  /** A block from whatever a read returned: padded with zeros, or cut. */
  function Fill(got: seq<byte>): (b: seq<byte>)
    ensures |b| == 4096
    ensures forall i | 0 <= i < 4096 :: b[i] == if i < |got| then got[i] else 0
  {
    seq(4096, i => if 0 <= i < |got| then got[i] else 0)
  }

  function ByteAt(s: seq<byte>, i: nat): byte {
    if i < |s| then s[i] else 0
  }

  /** Laying data over what was seen gives the flat-file result exactly when what was seen
      agrees with the flat file wherever the data does not cover it. */
  lemma OverlayAgrees(seen: seq<byte>, flat: seq<byte>, off: nat, data: seq<byte>)
    ensures
      var n := SizeAfter(|flat|, off, |data|);
      Overlay(seen, n, off, data) == Splice(flat, off, data)
      <==> forall i | 0 <= i < n && !(off <= i < off + |data|) :: ByteAt(seen, i) == ByteAt(flat, i)
  {
    var n := SizeAfter(|flat|, off, |data|);
    var a, b := Overlay(seen, n, off, data), Splice(flat, off, data);
    assert forall i | 0 <= i < n && !(off <= i < off + |data|) :: a[i] == ByteAt(seen, i) && b[i] == ByteAt(flat, i);
    if a == b {
      forall i | 0 <= i < n && !(off <= i < off + |data|)
        ensures ByteAt(seen, i) == ByteAt(flat, i)
      {
        assert a[i] == b[i];
      }
    }
  }

  /** When the bytes found on disk past the logical end give the flat-file result. */
  lemma OverlayIsSplice(raw: seq<byte>, size: nat, off: nat, data: seq<byte>)
    requires size <= |raw|
    ensures
      var n := SizeAfter(size, off, |data|);
      Overlay(raw, n, off, data) == Splice(raw[..size], off, data)
      <==> forall i | size <= i < Min(n, |raw|) && !(off <= i < off + |data|) :: raw[i] == 0
  {
    var n := SizeAfter(size, off, |data|);
    OverlayAgrees(raw, raw[..size], off, data);
    assert forall i | size <= i < Min(n, |raw|) && !(off <= i < off + |data|) ::
        ByteAt(raw, i) == raw[i] && ByteAt(raw[..size], i) == 0;
  }

  /** How far the move to a scratch dataset gets: it cannot be opened, it can but not be written,
      or both work. */
  datatype ScratchFate = Unavailable | Opened | Filled

  class SpillFile {
    // The handle's own bookkeeping (pm->spill).
    var open: bool
    var size: nat
    var dirty: bool

    // The scratch dataset behind it: its bytes, the blocks stored since the last reopen,
    // and the block still resident in the stream's buffer (-1 for none).
    var disk: seq<byte>
    var hidden: set<nat>
    var resident: int
    var fetches: nat
    const garbled: (nat, nat) -> seq<byte>

    // The read/modify/write scratch block.
    const block: array<byte>

    constructor (garbled: (nat, nat) -> seq<byte>)
      ensures Valid() && !open && fresh(block) && this.garbled == garbled
    {
      this.garbled := garbled;
      open, size, dirty := false, 0, false;
      disk, hidden, resident, fetches := [], {}, -1, 0;
      block := new byte[4096];
    }

    ghost predicate Valid()
      reads this
    {
      && block.Length == 4096
      && |disk| % 4096 == 0
      && BlocksFor(size) * 4096 <= |disk|
      && (!dirty ==> hidden == {})
    }

    predicate Readable(b: nat)
      reads this
    {
      b !in hidden || b == resident
    }

    /** Every byte physically present up to the end of the tail block. */
    ghost function Raw(): (r: seq<byte>)
      requires Valid()
      reads this
    {
      disk[..BlocksFor(size) * 4096]
    }

    /** The member's bytes: what is on disk, up to the recorded extent. */
    ghost function Contents(): (s: seq<byte>)
      requires Valid()
      reads this
    {
      disk[..size]
    }

    /** What loading block `b` gives now. */
    ghost function Loads(b: nat): (got: seq<byte>)
      requires Valid()
      reads this
      ensures |got| == 4096
    {
      if b >= BlocksFor(size) then Zeros(4096)
      else if Readable(b) then disk[b * 4096..][..4096]
      else Fill(garbled(fetches, b))
    }

    /** What a write starting in block `first` sees of the file: what is there, but for a tail
        block that has to be loaded and cannot be read. */
    ghost function SeenFrom(first: nat): (seen: seq<byte>)
      requires Valid()
      reads this
      ensures |seen| == BlocksFor(size) * 4096
    {
      if first + 1 == BlocksFor(size) && !Readable(first) then disk[..first * 4096] + Loads(first) else Raw()
    }

    ghost predicate TailReadable()
      requires Valid()
      reads this
    {
      BlocksFor(size) == 0 || Readable(BlocksFor(size) - 1)
    }

    /** Nothing but zeros between the extent and the end of the tail block. */
    ghost predicate SlackZero()
      requires Valid()
      reads this
    {
      forall i | size <= i < BlocksFor(size) * 4096 :: disk[i] == 0
    }

    /** The condition under which the store behaves as a flat file from here on. */
    ghost predicate Exact()
      requires Valid()
      reads this
    {
      TailReadable() && SlackZero()
    }

    method Open()
      requires Valid() && !open
      modifies this
      ensures Valid() && open && Contents() == [] && Exact() && !dirty
    {
      disk, hidden, resident := [], {}, -1;
      open, size, dirty := true, 0, false;
    }

    /** Close and reopen, so that every stored block becomes readable. */
    method Sync()
      requires Valid() && open
      modifies this`dirty, this`hidden, this`resident
      ensures Valid() && !dirty
    {
      if dirty {
        hidden, resident, dirty := {}, -1, false;
      }
    }

    /** Fill the scratch block from block `b`; a block past the extent is zeros. */
    method LoadBlock(b: nat)
      requires Valid() && open
      modifies this`resident, this`fetches, block
      ensures Valid() && block[..] == old(Loads(b))
    {
      var got := [];
      if b < BlocksFor(size) {
        got := if Readable(b) then disk[b * 4096..][..4096] else garbled(fetches, b);
        fetches := fetches + 1;
        if resident != b {
          resident := -1;              // the seek drops the buffered block
        }
      }
      forall i | 0 <= i < 4096 {
        block[i] := if i < |got| then got[i] else 0;
      }
    }

    /** Write the scratch block back as block `b`: never past the physical end. */
    method StoreBlock(b: nat)
      requires Valid() && open && b * 4096 <= |disk|
      modifies this`disk, this`dirty, this`hidden, this`resident
      ensures Valid() && dirty && resident == b && hidden == old(hidden) + {b}
      ensures |disk| == Max(|old(disk)|, b * 4096 + 4096)
      ensures forall i | 0 <= i < |disk| ::
                disk[i] == if b * 4096 <= i < b * 4096 + 4096 then block[i - b * 4096] else old(disk)[i]
    {
      disk := Splice(disk, b * 4096, block[..]);
      hidden, resident, dirty := hidden + {b}, b, true;
    }

    /** Load block `b`, lay the part of `data` that falls in it over it, and store it back. */
    method RewriteBlock(b: nat, off: nat, data: seq<byte>)
      requires Valid() && open && b * 4096 <= |disk|
      modifies this, block
      ensures Valid() && open && dirty && size == old(size)
      ensures resident == b && hidden == old(hidden) + {b}
      ensures |disk| == Max(|old(disk)|, b * 4096 + 4096)
      ensures forall i | 0 <= i < |old(disk)| && !(b * 4096 <= i < b * 4096 + 4096) :: disk[i] == old(disk)[i]
      ensures forall i | b * 4096 <= i < b * 4096 + 4096 ::
                disk[i] == if off <= i < off + |data| then data[i - off] else old(Loads(b))[i - b * 4096]
    {
      var lo := b * 4096;
      LoadBlock(b);
      ghost var loaded := block[..];
      forall i | Max(off, lo) <= i < Min(off + |data|, lo + 4096) {
        block[i - lo] := data[i - off];
      }
      assert forall i | 0 <= i < 4096 ::
          block[i] == if off <= lo + i < off + |data| then data[lo + i - off] else loaded[i];
      StoreBlock(b);
    }

    /** The blocks of `first..last` after the first one that exist can be read. */
    ghost predicate RestReadable(first: nat, last: int)
      reads this
    {
      forall j | first < j <= last && j < BlocksFor(size) :: j !in hidden
    }

    /** The block loop: rewrite blocks `first..last`, extending the dataset as it goes. */
    method RewriteRange(first: nat, last: int, off: nat, data: seq<byte>)
      requires Valid() && open && first * 4096 <= |disk| && RestReadable(first, last)
      requires first + 1 < BlocksFor(size) ==> Readable(first)
      modifies this, block
      ensures Valid() && open && size == old(size)
      ensures first > last ==> unchanged(this)
      ensures first <= last ==> dirty && resident == last && |disk| == Max(|old(disk)|, last * 4096 + 4096)
      ensures forall j | j in hidden :: j in old(hidden) || first <= j <= last
      ensures forall j | first <= j <= last :: j in hidden
      ensures forall i | 0 <= i < |old(disk)| && !(first * 4096 <= i < last * 4096 + 4096) :: disk[i] == old(disk)[i]
      ensures forall i | first * 4096 <= i < last * 4096 + 4096 :: disk[i] == Laid(old(SeenFrom(first)), off, data, i)
    {
      ghost var seen := SeenFrom(first);
      var b := first;
      while b <= last
        invariant Valid() && open && size == old(size)
        invariant first <= b && (b <= last + 1 || b == first)
        invariant b == first ==> unchanged(this)
        invariant b > first ==> dirty && resident == b - 1 && |disk| == Max(|old(disk)|, b * 4096)
        invariant forall j | j in hidden :: j in old(hidden) || first <= j < b
        invariant forall j | first <= j < b :: j in hidden
        invariant forall i | 0 <= i < |old(disk)| && !(first * 4096 <= i < b * 4096) :: disk[i] == old(disk)[i]
        invariant forall i | first * 4096 <= i < b * 4096 :: disk[i] == Laid(seen, off, data, i)
      {
        assert LoadsFrom(seen, b);
        RewriteBlock(b, off, data);
        b := b + 1;
      }
    }

    /** Loading block `b` gives that part of `seen`, and zeros past it. */
    ghost predicate LoadsFrom(seen: seq<byte>, b: nat)
      requires Valid()
      reads this
    {
      forall i | 0 <= i < 4096 :: Loads(b)[i] == ByteAt(seen, b * 4096 + i)
    }

    /** What a write of `len` bytes at `off` sees of the file. */
    ghost function Seen(off: nat, len: nat): (seen: seq<byte>)
      requires Valid()
      reads this
    {
      SeenFrom(FirstBlock(size, off, len))
    }

    /** The blocks a write of `len` bytes touched wait for a reopen, but for the last. */
    ghost predicate Waiting(was: nat, off: nat, len: nat)
      requires len > 0
      reads this
    {
      && resident == LastBlock(was, off, len)
      && forall j | FirstBlock(was, off, len) <= j <= LastBlock(was, off, len) :: j in hidden
    }

    /** Every byte up to the end of the tail block is what was seen, with the data laid over. */
    ghost predicate LaidOver(seen: seq<byte>, off: nat, data: seq<byte>)
      requires Valid()
      reads this
    {
      forall i | 0 <= i < BlocksFor(size) * 4096 :: disk[i] == Laid(seen, off, data, i)
    }

    /** The physical half of a write that stores or extends: every byte up to the new extent
        is laid out, and the new tail block can be read back. The extent is still the old one. */
    method WriteBlocks(off: nat, data: seq<byte>)
      requires Valid() && open && (|data| > 0 || off > size)
      modifies this, block
      ensures Valid() && open && size == old(size)
      ensures BlocksFor(SizeAfter(size, off, |data|)) * 4096 <= |disk|
      ensures forall i | 0 <= i < BlocksFor(SizeAfter(size, off, |data|)) * 4096 ::
                disk[i] == Laid(old(Seen(off, |data|)), off, data, i)
      ensures old(TailReadable()) || |data| > 0 || BlocksFor(SizeAfter(size, off, |data|)) > BlocksFor(size) ==>
                Readable(BlocksFor(SizeAfter(size, off, |data|)) - 1)
      ensures |data| > 0 ==> Waiting(old(size), off, |data|)
    {
      var first, last := FirstBlock(size, off, |data|), LastBlock(size, off, |data|);
      if first + 1 < BlocksFor(size) {
        Sync();
      }
      RewriteRange(first, last, off, data);
    }

    /** Place `data` at `off` by whole-block read/modify/write; empty `data` extends to `off`. */
    method Write(off: nat, data: seq<byte>)
      requires Valid() && open
      modifies this, block
      ensures Valid() && open
      ensures size == SizeAfter(old(size), off, |data|)
      ensures Contents() == Overlay(old(Seen(off, |data|)), size, off, data)
      ensures data == [] && off <= old(size) ==> dirty == old(dirty)
      ensures old(TailReadable()) || |data| > 0 || BlocksFor(size) > BlocksFor(old(size)) ==> TailReadable()
      ensures |data| > 0 ==> Waiting(old(size), off, |data|)
      ensures BlocksFor(size) > BlocksFor(old(size)) || old(SlackZero() && Seen(off, |data|) == Raw()) ==> SlackZero()
      ensures old(Exact()) ==> Exact()
      ensures |data| > 0 ==> LaidOver(old(Seen(off, |data|)), off, data)
    {
      if SizeAfter(size, off, |data|) == size && |data| == 0 {
        assert Contents() == Overlay(Raw(), size, off, data);
        return;
      }
      WriteThrough(off, data);
    }

    /** A write that stores or extends. */
    method WriteThrough(off: nat, data: seq<byte>)
      requires Valid() && open && (|data| > 0 || off > size)
      modifies this, block
      ensures Valid() && open
      ensures size == SizeAfter(old(size), off, |data|)
      ensures Contents() == Overlay(old(Seen(off, |data|)), size, off, data)
      ensures old(TailReadable()) || |data| > 0 || BlocksFor(size) > BlocksFor(old(size)) ==> TailReadable()
      ensures |data| > 0 ==> Waiting(old(size), off, |data|)
      ensures BlocksFor(size) > BlocksFor(old(size)) || old(SlackZero() && Seen(off, |data|) == Raw()) ==> SlackZero()
      ensures LaidOver(old(Seen(off, |data|)), off, data)
    {
      var newSize := SizeAfter(size, off, |data|);
      ghost var seen := Seen(off, |data|);
      WriteBlocks(off, data);
      LaidOut(disk, seen, newSize, off, data);
      SlackLaid(disk, seen, size, newSize, off, data);
      size := newSize;
    }

    /** Shrinking an exact file to `n` keeps it exact: the new tail block can be read, and the
        bytes cut off inside it are zero. */
    ghost predicate CutsClean(n: nat)
      requires Valid() && n <= size
      reads this
    {
      n == 0 || (Readable(BlocksFor(n) - 1) && forall i | n <= i < Min(size, BlocksFor(n) * 4096) :: disk[i] == 0)
    }

    /** Resize to exactly `n` bytes. A shrink lowers the extent and touches nothing else. */
    method Truncate(n: nat)
      requires Valid() && open
      modifies this, block
      ensures Valid() && open && size == n
      ensures n <= old(size) ==> Contents() == old(Contents())[..n] && dirty == old(dirty)
      ensures n <= old(size) ==>
                disk == old(disk) && hidden == old(hidden) && resident == old(resident) && fetches == old(fetches)
      ensures n <= old(size) && old(Exact()) ==> (Exact() <==> old(CutsClean(n)))
      ensures n > old(size) ==> Contents() == Overlay(old(Raw()), n, n, [])
      ensures n > old(size) && old(Exact()) ==> Exact()
    {
      if n > size {
        Write(n, []);
      } else {
        assert BlocksFor(n) <= BlocksFor(size);
        size := n;
      }
    }

    /** Read `len` bytes at `off`, after making every stored block readable. None is the
        short read past the physical end. */
    method Read(off: nat, len: nat) returns (r: Option<seq<byte>>)
      requires Valid() && open
      modifies this`dirty, this`hidden, this`resident
      ensures Valid()
      ensures len > 0 || !old(dirty) ==> !dirty
      ensures off + len <= size ==> r == Some(Contents()[off..off + len])
      ensures old(TailReadable()) ==> TailReadable()
    {
      if len == 0 {
        assert off <= size ==> Contents()[off..off] == [];
        return Some([]);
      }
      Sync();
      assert off + len <= size ==> Contents()[off..off + len] == disk[off..off + len];
      r := if off + len <= |disk| then Some(disk[off..off + len]) else None;
    }

    method Close()
      requires Valid()
      modifies this
      ensures Valid() && !open && size == 0
    {
      open, size, dirty, hidden := false, 0, false, {};
    }

    /** Move `data` from memory to the scratch dataset. When that cannot be opened, or the bytes
        cannot be written to it, it is closed again. */
    method Transition(scratch: ScratchFate, data: seq<byte>) returns (ok: bool)
      requires Valid() && !open
      modifies this, block
      ensures Valid() && open == ok && ok == (scratch.Filled? || (scratch.Opened? && data == []))
      ensures ok ==> Contents() == data && Exact()
    {
      if scratch.Unavailable? {
        return false;
      }
      Open();
      if |data| > 0 {
        if scratch.Opened? {
          Close();
          return false;
        }
        Write(0, data);
      }
      ok := true;
    }
  }

  /** Requests a spilled member can receive. */
  datatype Op = Put(off: nat, data: seq<byte>) | SetSize(n: nat) | Fetch(off: nat, len: nat)

  /** A spilled file as seen from outside: its bytes, whether nothing waits for a reopen, and
      whether the bytes past its end in the tail block are known to be zero and that block to
      be readable as it is. */
  datatype Flat = Flat(bytes: seq<byte>, settled: bool, slack: bool, tail: bool) {
    predicate Readable() {
      tail || settled || bytes == []
    }

    /** Known to behave as a flat file from here on. */
    predicate Exact() {
      slack && Readable()
    }
  }

  /** A file known to be exact, with blocks that wait for a reopen. */
  function ExactFile(bytes: seq<byte>): Flat {
    Flat(bytes, false, true, true)
  }

  /** A store of `len` bytes at `off` into a file of `n` loads the tail block as it is. */
  predicate LoadsTail(n: nat, off: nat, len: nat) {
    n > 0 && FirstBlock(n, off, len) + 1 == BlocksFor(n)
  }

  /** Nothing to store and nothing to extend. */
  predicate Idle(f: Flat, off: nat, data: seq<byte>) {
    data == [] && off <= |f.bytes|
  }

  /** A store is sure to be the flat-file splice: the tail block can be read if it has to be, and
      no byte past the old end is left to what lies there, unless that is zero. */
  predicate Sure(f: Flat, off: nat, data: seq<byte>) {
    (LoadsTail(|f.bytes|, off, |data|) ==> f.Readable()) && (f.slack || off <= |f.bytes|)
  }

  /** A store: the flat-file splice when that is sure; otherwise bytes that no rule but their number
      governs. Data makes the tail readable, and a new tail block starts as zeros. */
  function Stored(f: Flat, off: nat, data: seq<byte>, junk: seq<byte>): (g: Flat)
    ensures |g.bytes| == Max(|f.bytes|, off + |data|)
  {
    if Idle(f, off, data) then f
    else
      var n := Max(|f.bytes|, off + |data|);
      var further := BlocksFor(n) > BlocksFor(|f.bytes|);
      Flat(if Sure(f, off, data) then Splice(f.bytes, off, data) else Resize(junk, n), false,
           further || (f.slack && Sure(f, off, data)), further || data != [] || f.Readable())
  }

  /** The bytes a cut to `n` takes off inside the new tail block are zero. */
  predicate CutsZeros(bytes: seq<byte>, n: nat) {
    forall i | n <= i < Min(|bytes|, BlocksFor(n) * 4096) :: bytes[i] == 0
  }

  /** A cut touches nothing. The new tail block is known as far as it was before: as the old tail,
      or as bytes of the file. */
  function Shortened(f: Flat, n: nat): Flat
    requires n <= |f.bytes|
  {
    Flat(f.bytes[..n], f.settled,
         (f.slack || BlocksFor(n) * 4096 <= |f.bytes|) && CutsZeros(f.bytes, n),
         f.Readable() && BlocksFor(n) == BlocksFor(|f.bytes|))
  }

  function Step(f: Flat, op: Op, junk: seq<byte>): Flat {
    match op
    case Put(off, data) => Stored(f, off, data, junk)
    case SetSize(n) => if n > |f.bytes| then Stored(f, n, [], junk) else Shortened(f, n)
    case Fetch(_, len) => f.(settled := f.settled || len > 0)
  }

  /** A cut to nothing makes any file exact, and so does one to a whole number of blocks when
      nothing waits for a reopen. */
  lemma CutRestores(f: Flat, n: nat)
    requires n <= |f.bytes| && (n == 0 || (n % 4096 == 0 && f.settled))
    ensures Shortened(f, n).Exact()
  {
  }

  /** The scratch file stands for `f`. */
  ghost predicate StandsFor(file: SpillFile, f: Flat)
    reads file
  {
    && file.Valid() && file.open && file.Contents() == f.bytes && (f.settled ==> !file.dirty)
    && (f.slack ==> file.SlackZero()) && (f.tail ==> file.TailReadable())
  }

  /** A store that is sure sees what is there, and what it leaves is the flat-file splice. */
  lemma SureSplice(file: SpillFile, f: Flat, off: nat, data: seq<byte>)
    requires StandsFor(file, f) && Sure(f, off, data)
    ensures file.Seen(off, |data|) == file.Raw()
    ensures Overlay(file.Raw(), SizeAfter(file.size, off, |data|), off, data) == Splice(f.bytes, off, data)
  {
    var raw := file.Raw();
    assert raw[..file.size] == f.bytes;
    assert f.slack ==> forall i | file.size <= i < |raw| :: raw[i] == 0;
    OverlayIsSplice(raw, file.size, off, data);
  }

  /** Storing in a file that stands for `f` makes it stand for what `Stored` says. */
  method PerformPut(file: SpillFile, off: nat, data: seq<byte>, ghost f: Flat) returns (ghost junk: seq<byte>)
    requires StandsFor(file, f)
    modifies file, file.block
    ensures StandsFor(file, Stored(f, off, data, junk))
    ensures file.Contents() == Overlay(old(file.Seen(off, |data|)), file.size, off, data)
  {
    if Sure(f, off, data) {
      SureSplice(file, f, off, data);
    }
    assert f.Readable() ==> file.TailReadable();
    file.Write(off, data);
    junk := file.Contents();
    assert Resize(junk, |junk|) == junk;
  }

  /** After a cut the flags say what is true of the new tail block. */
  lemma ShortenedStands(file: SpillFile, was: seq<byte>, f: Flat, n: nat)
    requires file.Valid() && file.open && |was| == |f.bytes| && n <= |was| && file.size == n
    requires BlocksFor(|was|) * 4096 <= |file.disk| && file.disk[..|was|] == f.bytes
    requires f.slack ==> forall i | |was| <= i < BlocksFor(|was|) * 4096 :: file.disk[i] == 0
    requires f.Readable() && was != [] ==> file.Readable(BlocksFor(|was|) - 1)
    ensures Shortened(f, n).slack ==> file.SlackZero()
    ensures Shortened(f, n).tail ==> file.TailReadable()
  {
    assert forall i | 0 <= i < |was| :: file.disk[i] == file.disk[..|was|][i];
  }

  method PerformSetSize(file: SpillFile, n: nat, ghost f: Flat) returns (ghost junk: seq<byte>)
    requires StandsFor(file, f)
    modifies file, file.block
    ensures StandsFor(file, Step(f, SetSize(n), junk))
    ensures n <= old(file.size) ==> file.disk == old(file.disk) && file.size == n
    ensures n > old(file.size) ==> file.Contents() == Overlay(old(file.Raw()), n, n, [])
  {
    junk := [];
    if n > file.size {
      junk := PerformPut(file, n, [], f);
    } else {
      ghost var was := file.Contents();
      file.Truncate(n);
      ShortenedStands(file, was, f, n);
    }
  }

  /** Any request at all keeps the scratch file in step, for some content of what cannot be
      known; a read inside the file answers with its bytes. */
  method Perform(file: SpillFile, op: Op, ghost f: Flat) returns (reply: seq<byte>, ghost junk: seq<byte>)
    requires StandsFor(file, f)
    modifies file, file.block
    ensures StandsFor(file, Step(f, op, junk))
    ensures op.Fetch? && op.off + op.len <= |f.bytes| ==> reply == f.bytes[op.off..op.off + op.len]
  {
    reply, junk := [], [];
    match op {
      case Put(off, data) => junk := PerformPut(file, off, data, f);
      case SetSize(n) => junk := PerformSetSize(file, n, f);
      case Fetch(off, len) =>
        var r := file.Read(off, len);
        reply := if r.Some? then r.value else [];
    }
  }

  /** Reads stay inside the file, and what is stored or extended is sure to be as in a flat file. */
  predicate Allowed(f: Flat, op: Op) {
    match op
    case Put(off, data) => Sure(f, off, data) || Idle(f, off, data)
    case SetSize(n) => n <= |f.bytes| || Sure(f, n, [])
    case Fetch(off, len) => off + len <= |f.bytes|
  }

  predicate AllAllowed(f: Flat, ops: seq<Op>)
    decreases |ops|
  {
    ops == [] || (Allowed(f, ops[0]) && AllAllowed(Step(f, ops[0], []), ops[1..]))
  }

  /** Sizes alone: nothing is cut off a file of `n` bytes, and reads stay inside it. */
  predicate NeverCut(n: nat, ops: seq<Op>)
    decreases |ops|
  {
    ops == [] ||
    match ops[0]
    case Put(off, data) => NeverCut(Max(n, off + |data|), ops[1..])
    case SetSize(m) => m >= n && NeverCut(m, ops[1..])
    case Fetch(off, len) => off + len <= n && NeverCut(n, ops[1..])
  }

  /** Such requests are allowed whatever they store. */
  lemma {:induction false} NeverCutAllowed(f: Flat, ops: seq<Op>)
    requires f.Exact() && NeverCut(|f.bytes|, ops)
    ensures AllAllowed(f, ops)
    decreases |ops|
  {
    if ops != [] {
      NeverCutAllowed(Step(f, ops[0], []), ops[1..]);
    }
  }

  /** The bytes a flat file has after a request. */
  function FlatStep(bytes: seq<byte>, op: Op): seq<byte> {
    match op
    case Put(off, data) => Splice(bytes, off, data)
    case SetSize(n) => Resize(bytes, n)
    case Fetch(_, _) => bytes
  }

  /** An allowed request leaves the flat file's bytes, and nothing of it is unknown. */
  lemma AllowedIsFlat(f: Flat, op: Op, junk: seq<byte>)
    requires Allowed(f, op)
    ensures Step(f, op, junk) == Step(f, op, []) && Step(f, op, junk).bytes == FlatStep(f.bytes, op)
  {
    if op.SetSize? && op.n > |f.bytes| {
      assert Splice(f.bytes, op.n, []) == Resize(f.bytes, op.n);
    }
  }

  /** What a request answers from a flat file. */
  function Reply(bytes: seq<byte>, op: Op): seq<seq<byte>> {
    if op.Fetch? && op.off + op.len <= |bytes| then [bytes[op.off..op.off + op.len]] else []
  }

  function Replies(bytes: seq<byte>, ops: seq<Op>): seq<seq<byte>>
    decreases |ops|
  {
    if ops == [] then [] else Reply(bytes, ops[0]) + Replies(FlatStep(bytes, ops[0]), ops[1..])
  }

  /** An allowed request: answered, and the scratch file as far on as the flat file. */
  method PerformAllowed(file: SpillFile, op: Op, ghost f: Flat) returns (answer: seq<seq<byte>>)
    requires StandsFor(file, f) && Allowed(f, op)
    modifies file, file.block
    ensures StandsFor(file, Step(f, op, [])) && Step(f, op, []).bytes == FlatStep(f.bytes, op)
    ensures answer == Reply(f.bytes, op)
  {
    var reply, junk := Perform(file, op, f);
    AllowedIsFlat(f, op, junk);
    answer := if op.Fetch? then [reply] else [];
  }

  lemma RepliesOn(sofar: seq<seq<byte>>, bytes: seq<byte>, ops: seq<Op>, k: nat)
    requires k < |ops|
    ensures sofar + Replies(bytes, ops[k..]) == sofar + Reply(bytes, ops[k]) + Replies(FlatStep(bytes, ops[k]), ops[k + 1..])
  {
    assert ops[k..][0] == ops[k] && ops[k..][1..] == ops[k + 1..];
    Assoc(sofar, Reply(bytes, ops[k]), Replies(FlatStep(bytes, ops[k]), ops[k + 1..]));
  }

  /** Every run: spill `start`, then any allowed requests. Every read answers as a flat file
      does, whatever an unreadable block would have returned. */
  method Run(start: seq<byte>, ops: seq<Op>, garbled: (nat, nat) -> seq<byte>) returns (replies: seq<seq<byte>>)
    requires AllAllowed(ExactFile(start), ops)
    ensures replies == Replies(start, ops)
  {
    var file := new SpillFile(garbled);
    var _ := file.Transition(Filled, start);
    ghost var f := ExactFile(start);
    replies := [];
    for k := 0 to |ops|
      invariant fresh(file) && fresh(file.block) && StandsFor(file, f) && AllAllowed(f, ops[k..])
      invariant replies + Replies(f.bytes, ops[k..]) == Replies(start, ops)
    {
      assert ops[k..][0] == ops[k] && ops[k..][1..] == ops[k + 1..];
      RepliesOn(replies, f.bytes, ops, k);
      var answer := PerformAllowed(file, ops[k], f);
      replies, f := replies + answer, Step(f, ops[k], []);
    }
  }

  // ----- Shrinking, exactly ---------------------------------------------------------------

  /** The first block of `n` bytes that a store there need not leave alone. */
  function TailStart(n: nat): nat {
    if n == 0 then 0 else (BlocksFor(n) - 1) * 4096
  }

  predicate Covers(off: nat, data: seq<byte>, i: nat) {
    off <= i < off + |data|
  }

  /** `tail`, standing where the tail block of `flat` should, agrees with it and with the zeros
      past it, up to size `m` and outside the data. */
  predicate TailAgrees(flat: seq<byte>, tail: seq<byte>, m: nat, off: nat, data: seq<byte>) {
    var lo := TailStart(|flat|);
    forall i | lo <= i < Min(m, lo + 4096) && !Covers(off, data, i) :: ByteAt(tail, i - lo) == ByteAt(flat, i)
  }

  /** The bytes cut off inside the new tail block are zero, up to size `m` and outside the data. */
  predicate CutAgrees(was: seq<byte>, n: nat, m: nat, off: nat, data: seq<byte>) {
    forall i | n <= i < Min(Min(m, |was|), BlocksFor(n) * 4096) && !(off <= i < off + |data|) :: was[i] == 0
  }

  /** A shrink of an exact file followed by a store, with any blocks waiting for a reopen. When
      the new tail block can be read, or need not be, the file is as a flat file would be
      exactly when the bytes cut off inside it are zero; otherwise exactly when the load
      happens to return the right bytes. */
  method ShrinkThenStore(file: SpillFile, n: nat, off: nat, data: seq<byte>)
    requires file.Valid() && file.open && file.Exact() && n <= file.size
    modifies file, file.block
    ensures file.Valid() && file.open && file.size == SizeAfter(n, off, |data|)
    ensures file.Contents() == Splice(old(file.Contents())[..n], off, data)
       <==> old(StoresRight(file, file.Contents(), n, off, data))
  {
    ghost var was := file.Contents();
    ghost var right := StoresRight(file, was, n, off, data);
    ExactBytes(file);
    assert BlocksFor(n) <= BlocksFor(file.size);
    file.Truncate(n);
    StoreAfterCut(file, was, off, data);
    assert StoresRight(file, was, n, off, data) == right;
    file.Write(off, data);
  }

  lemma ExactBytes(file: SpillFile)
    requires file.Valid() && file.Exact()
    ensures forall i | 0 <= i < BlocksFor(file.size) * 4096 :: file.disk[i] == ByteAt(file.Contents(), i)
  {
  }

  /** A store into the first `n` bytes of `was` gives the flat file's bytes: the new tail block can
      be read, or need not be, and what was cut off inside it is zero; or the load that cannot
      read it happens to return the right bytes. */
  ghost predicate StoresRight(file: SpillFile, was: seq<byte>, n: nat, off: nat, data: seq<byte>)
    requires n <= |was|
    reads file
  {
    var tail, m := BlocksFor(n) - 1, SizeAfter(n, off, |data|);
    if LoadsTail(n, off, |data|) && !file.Readable(tail)
    then TailAgrees(was[..n], Fill(file.garbled(file.fetches, tail)), m, off, data)
    else CutAgrees(was, n, m, off, data)
  }

  /** What a store sees after a cut from `was`. */
  lemma StoreAfterCut(file: SpillFile, was: seq<byte>, off: nat, data: seq<byte>)
    requires file.Valid() && file.size <= |was|
    requires forall i | 0 <= i < BlocksFor(file.size) * 4096 :: file.disk[i] == ByteAt(was, i)
    ensures
      var n, m := file.size, SizeAfter(file.size, off, |data|);
      Overlay(file.Seen(off, |data|), m, off, data) == Splice(was[..n], off, data) <==> StoresRight(file, was, n, off, data)
  {
    var n, seen := file.size, file.Seen(off, |data|);
    OverlayAgrees(seen, was[..n], off, data);
    if LoadsTail(n, off, |data|) && !file.Readable(BlocksFor(n) - 1) {
      SeesGarbled(file, was, off, data);
    } else {
      SeenCut(was, n, seen, SizeAfter(n, off, |data|), off, data);
    }
  }

  lemma SeesGarbled(file: SpillFile, was: seq<byte>, off: nat, data: seq<byte>)
    requires file.Valid() && file.size <= |was|
    requires forall i | 0 <= i < BlocksFor(file.size) * 4096 :: file.disk[i] == ByteAt(was, i)
    requires LoadsTail(file.size, off, |data|) && !file.Readable(BlocksFor(file.size) - 1)
    ensures
      var n, m, seen := file.size, SizeAfter(file.size, off, |data|), file.Seen(off, |data|);
      (forall i | 0 <= i < m && !(off <= i < off + |data|) :: ByteAt(seen, i) == ByteAt(was[..n], i))
      <==> StoresRight(file, was, n, off, data)
  {
    var n, seen := file.size, file.Seen(off, |data|);
    var tail := file.Loads(BlocksFor(n) - 1);
    assert seen[TailStart(n)..] == tail;
    assert forall i | 0 <= i < TailStart(n) :: seen[i] == was[..n][i];
    SeenGarbled(was[..n], seen, tail, SizeAfter(n, off, |data|), off, data);
  }

  lemma SeenGarbled(flat: seq<byte>, seen: seq<byte>, tail: seq<byte>, m: nat, off: nat, data: seq<byte>)
    requires |flat| > 0 && |tail| == 4096 && |seen| == BlocksFor(|flat|) * 4096 && seen[TailStart(|flat|)..] == tail
    requires forall i | 0 <= i < TailStart(|flat|) :: seen[i] == flat[i]
    ensures (forall i | 0 <= i < m && !(off <= i < off + |data|) :: ByteAt(seen, i) == ByteAt(flat, i))
       <==> TailAgrees(flat, tail, m, off, data)
  {
    var lo := TailStart(|flat|);
    assert forall i | lo <= i < lo + 4096 :: seen[i] == seen[lo..][i - lo];
    assert forall i | lo <= i < lo + 4096 :: ByteAt(seen, i) == ByteAt(tail, i - lo);
    assert forall i | lo + 4096 <= i :: ByteAt(seen, i) == ByteAt(flat, i) == 0;
  }

  lemma SeenCut(was: seq<byte>, n: nat, seen: seq<byte>, m: nat, off: nat, data: seq<byte>)
    requires n <= |was| && |seen| == BlocksFor(n) * 4096
    requires forall i | 0 <= i < |seen| :: seen[i] == ByteAt(was, i)
    ensures (forall i | 0 <= i < m && !(off <= i < off + |data|) :: ByteAt(seen, i) == ByteAt(was[..n], i))
       <==> CutAgrees(was, n, m, off, data)
  {
    assert forall i | 0 <= i < n :: ByteAt(seen, i) == ByteAt(was[..n], i);
    assert forall i | n <= i :: ByteAt(was[..n], i) == 0;
    assert forall i | n <= i < Min(|was|, BlocksFor(n) * 4096) :: ByteAt(seen, i) == was[i];
  }

  /** A load that returns anything at all is harmless only where the data covers it: for every
      content of an unreadable tail block the store is exact exactly when no byte of the block
      below the new size is left to the load. */
  lemma UnreadableTail(flat: seq<byte>, m: nat, off: nat, data: seq<byte>)
    ensures (forall tail :: TailAgrees(flat, tail, m, off, data))
       <==> (forall i | TailStart(|flat|) <= i < Min(m, TailStart(|flat|) + 4096) :: Covers(off, data, i))
  {
    var lo := TailStart(|flat|);
    if i :| lo <= i < Min(m, lo + 4096) && !Covers(off, data, i) {
      var wrong: seq<byte> := seq(4096, k requires 0 <= k < 4096 => if ByteAt(flat, lo + k) == 0 then 1 else 0);
      assert ByteAt(wrong, i - lo) != ByteAt(flat, i);
      assert !TailAgrees(flat, wrong, m, off, data);
    }
  }

  /** A shrink followed by a growth loads nothing: it is exact exactly when the bytes cut off
      inside the new tail block, up to the new size, were zero already. */
  method ShrinkThenGrow(file: SpillFile, n: nat, m: nat)
    requires file.Valid() && file.open && file.Exact() && n < file.size && n < m
    modifies file, file.block
    ensures file.Valid() && file.open && file.size == m
    ensures
      var was := old(file.Contents());
      file.Contents() == Resize(was[..n], m)
      <==> forall i | n <= i < Min(Min(m, |was|), BlocksFor(n) * 4096) :: was[i] == 0
  {
    ghost var flat := file.Contents()[..n];
    ShrinkThenStore(file, n, m, []);
    assert Splice(flat, m, []) == Resize(flat, m);
  }

  function Sevens(n: nat): (s: seq<byte>)
    ensures |s| == n && forall i | 0 <= i < n :: s[i] == 7
  {
    seq(n, _ => 7)
  }

  /** What a load of the first block returns here. */
  const NINES: seq<byte> := seq(4096, _ => 9)

  /** WRITE of 20000 sevens and SETATTR to 100: the first block, now the last, cannot be read. */
  method WriteAndCut() returns (file: SpillFile)
    ensures fresh(file) && fresh(file.block) && file.Valid() && file.open && file.size == 100
    ensures !file.Readable(0) && forall n: nat :: file.garbled(n, 0) == NINES
  {
    file := new SpillFile((_, _) => NINES);
    var _ := file.Transition(Filled, []);
    file.Write(0, Sevens(20000));
    HiddenAfter(file);
    file.Truncate(100);
  }

  lemma HiddenAfter(file: SpillFile)
    requires file.Waiting(0, 0, 20000)
    ensures 0 in file.hidden && file.resident == 4
  {
  }

  lemma OverUnreadable(file: SpillFile)
    requires file.Valid() && file.size == 100 && !file.Readable(0) && file.garbled(file.fetches, 0) == NINES
    ensures file.Seen(0, 100) == NINES
  {
    assert FirstBlock(100, 0, 100) == 0 && BlocksFor(100) == 1;
    assert Fill(NINES) == NINES;
    assert [] + Fill(NINES) == NINES;
  }

  /** A WRITE of 100 bytes at the start stores that block with what loading it returned past the
      data. SETATTR to 200, which reads the member first to predict its space, uncovers it. The model
      takes any block that waits for a reopen to be unreadable, those of the first track too. */
  method GarbledBytesRead() returns (b: byte)
    ensures b == 9 != Resize(Splice(Sevens(20000)[..100], 0, Sevens(100)), 200)[150]
  {
    var file := WriteAndCut();
    OverUnreadable(file);
    file.Write(0, Sevens(100));
    assert file.disk[150] == Laid(NINES, 0, Sevens(100), 150);
    var r := file.Read(0, 100);
    b := UncoveredByte(file);
  }

  method UncoveredByte(file: SpillFile) returns (b: byte)
    requires file.Valid() && file.open && file.size == 100
    modifies file, file.block
    ensures b == old(file.disk)[150]
  {
    assert file.Raw()[150] == file.disk[150];
    file.Truncate(200);
    assert file.Contents()[150] == old(file.disk)[150];
    var r := file.Read(150, 1);
    b := r.value[0];
  }
}
