/**
 A pending member's bytes as a value (src/mvspww.c, src/mvsspl.c): held in memory, or spilled
 to a scratch file that may be longer than the member and may no longer be exact. The class
 in PendingMember is proved to be in step with it, and the pool keeps one per slot.
 */
module MemberImage {
  import opened Bytes
  import opened SpillStore

  const SPILL_THRESHOLD: nat := 16384
  const MAX_MEMBER_BYTES: nat := 1048576

  datatype Image =
    | Held(bytes: seq<byte>)
    | Spilled(file: Flat, size: nat)
  {
    predicate Valid() {
      if Held? then |bytes| <= SPILL_THRESHOLD else size <= |file.bytes|
    }

    /** The bytes a reader gets. */
    function Content(): seq<byte> {
      if Held? then bytes else file.bytes[..Min(size, |file.bytes|)]
    }
  }

  const EMPTY: Image := Held([])

  /** The image after `data` is stored at `off`. `junk` is what a scratch file that is not exact
      then holds. */
  function Store(img: Image, off: nat, data: seq<byte>, junk: seq<byte>): (r: Image)
    ensures img.Valid() ==> r.Valid() && |r.Content()| == Max(|img.Content()|, off + |data|)
  {
    match img
    case Held(bytes) => Placed(Splice(bytes, off, data))
    case Spilled(file, size) => Spilled(Stored(file, off, data, junk), Max(size, off + |data|))
  }

  /** In memory up to the threshold, and on an exact scratch file above it. */
  function Placed(bytes: seq<byte>): (r: Image)
    ensures r.Valid() && r.Content() == bytes
  {
    if |bytes| <= SPILL_THRESHOLD then Held(bytes) else Spilled(ExactFile(bytes), |bytes|)
  }

  /** The image after a resize. The scratch file of a spilled member takes exactly the new size,
      whether that cuts it, extends it, or uncovers what lay behind the member's end. */
  function SetSize(img: Image, n: nat, junk: seq<byte>): (r: Image)
    ensures img.Valid() ==> r.Valid() && |r.Content()| == n
  {
    if n == |img.Content()| then img
    else
      match img
      case Held(bytes) => Placed(Resize(bytes, n))
      case Spilled(file, _) => Spilled(Step(file, SpillStore.SetSize(n), junk), n)
  }

  /** CREATE over a pending member: only the logical size goes back to zero. */
  function Recreated(img: Image): (r: Image)
    ensures (img.Valid() ==> r.Valid()) && r.Content() == []
  {
    if img.Held? then EMPTY else img.(size := 0)
  }

  /** A read makes every stored block readable. */
  function Read(img: Image, len: nat): (r: Image)
    ensures (img.Valid() ==> r.Valid()) && r.Content() == img.Content()
  {
    if img.Held? then img else img.(file := Step(img.file, Fetch(0, len), []))
  }

  /** The reads a prediction of space makes before a store of `count` bytes at `off`, when `consumed`
      bytes are accounted for: none for an append, and otherwise what precedes and follows it. */
  predicate Rereads(size: nat, consumed: nat, off: nat, count: nat) {
    && !(off == size && consumed == size)
    && if off <= size then off > 0 || off + count < size else size > 0
  }

  /** What lies behind the member's end on the scratch file, up to `end`, is zero. */
  predicate BehindIsZero(img: Image, end: nat)
    requires img.Spilled?
  {
    forall i | img.size <= i < Min(end, |img.file.bytes|) :: img.file.bytes[i] == 0
  }

  /** A store here is sure to be the flat-file splice: it is sure to be one of the scratch file, if
      any, and that shows nothing but zeros between the member's end and the data. */
  predicate StoresExactly(img: Image, off: nat, data: seq<byte>) {
    img.Held? || ((Sure(img.file, off, data) || Idle(img.file, off, data)) && BehindIsZero(img, off))
  }

  /** The same for a resize; a cut always is. */
  predicate SizesExactly(img: Image, n: nat) {
    img.Held? || n <= |img.Content()| || ((Sure(img.file, n, []) || n <= |img.file.bytes|) && BehindIsZero(img, n))
  }

  /** The image after a store shows the flat-file splice, whatever an inexact scratch file may
      hold, exactly when the image before it says so. */
  lemma StoreIsSplice(img: Image, off: nat, data: seq<byte>)
    requires img.Valid()
    ensures StoresExactly(img, off, data)
       <==> forall junk :: Store(img, off, data, junk).Content() == Splice(img.Content(), off, data)
  {
    if StoresExactly(img, off, data) {
      forall junk
        ensures Store(img, off, data, junk).Content() == Splice(img.Content(), off, data)
      {
        ExactStore(img, off, data, junk);
      }
    } else {
      var junk := WrongStore(img, off, data);
    }
  }

  lemma ExactStore(img: Image, off: nat, data: seq<byte>, junk: seq<byte>)
    requires img.Valid() && StoresExactly(img, off, data)
    ensures Store(img, off, data, junk).Content() == Splice(img.Content(), off, data)
  {
    if img.Spilled? && Idle(img.file, off, data) {
      assert img.file.bytes == Splice(img.file.bytes, off, data);
    }
  }

  /** Where a store of the scratch file is sure, one of the member is the splice exactly when the
      bytes behind the member's end, up to the data, are zero: after re-CREATE, that is, for every
      store that starts at or before the end, and for one past it if what the old member left
      there is zero. */
  lemma StoreBehind(img: Image, off: nat, data: seq<byte>, junk: seq<byte>)
    requires img.Valid() && img.Spilled? && Sure(img.file, off, data)
    ensures Store(img, off, data, junk).Content() == Splice(img.Content(), off, data) <==> BehindIsZero(img, off)
  {
    if BehindIsZero(img, off) {
      ExactStore(img, off, data, junk);
    } else {
      var i :| img.size <= i < Min(off, |img.file.bytes|) && img.file.bytes[i] != 0;
      assert Splice(img.file.bytes, off, data)[i] == img.file.bytes[i];
      assert Store(img, off, data, junk).Content()[i] != Splice(img.Content(), off, data)[i];
    }
  }

  /** Bytes that show a store not to be exact. */
  lemma WrongStore(img: Image, off: nat, data: seq<byte>) returns (junk: seq<byte>)
    requires img.Valid() && !StoresExactly(img, off, data)
    ensures Store(img, off, data, junk).Content() != Splice(img.Content(), off, data)
  {
    var flat := Splice(img.Content(), off, data);
    junk := [if flat != [] && flat[0] == 0 then 1 else 0];
    if Sure(img.file, off, data) || Idle(img.file, off, data) {
      var i :| img.size <= i < Min(off, |img.file.bytes|) && img.file.bytes[i] != 0;
      assert Splice(img.file.bytes, off, data)[i] == img.file.bytes[i];
      assert Store(img, off, data, junk).Content()[i] != flat[i];
    } else {
      assert Store(img, off, data, junk).Content()[0] != flat[0];
    }
  }

  lemma SizeIsResize(img: Image, n: nat)
    requires img.Valid()
    ensures SizesExactly(img, n) <==> forall junk :: SetSize(img, n, junk).Content() == Resize(img.Content(), n)
  {
    if SizesExactly(img, n) {
      forall junk
        ensures SetSize(img, n, junk).Content() == Resize(img.Content(), n)
      {
        ExactSize(img, n, junk);
      }
    } else {
      var junk := WrongSize(img, n);
    }
  }

  lemma ExactSize(img: Image, n: nat, junk: seq<byte>)
    requires img.Valid() && SizesExactly(img, n)
    ensures SetSize(img, n, junk).Content() == Resize(img.Content(), n)
  {
  }

  lemma WrongSize(img: Image, n: nat) returns (junk: seq<byte>)
    requires img.Valid() && !SizesExactly(img, n)
    ensures SetSize(img, n, junk).Content() != Resize(img.Content(), n)
  {
    var flat := Resize(img.Content(), n);
    junk := [if flat[0] == 0 then 1 else 0];
    if Sure(img.file, n, []) || n <= |img.file.bytes| {
      var i :| img.size <= i < Min(n, |img.file.bytes|) && img.file.bytes[i] != 0;
      assert SetSize(img, n, junk).Content()[i] != flat[i];
    } else {
      assert SetSize(img, n, junk).Content()[0] != flat[0];
    }
  }

  /** An image that shows nothing behind its end and is exact keeps both through every store, and
      through every resize but a cut whose tail block is not known to be zeros and readable. */
  predicate Sound(img: Image) {
    img.Held? || (img.file.Exact() && img.size == |img.file.bytes|)
  }

  /** A cut of a spilled member after which its scratch file is not known to be exact. */
  predicate RaggedCut(img: Image, n: nat) {
    img.Spilled? && n < |img.Content()| && !Shortened(img.file, n).Exact()
  }

  lemma SoundStays(img: Image, off: nat, data: seq<byte>, n: nat, junk: seq<byte>)
    requires img.Valid() && Sound(img)
    ensures StoresExactly(img, off, data) && SizesExactly(img, n)
    ensures Sound(Store(img, off, data, junk))
    ensures Sound(SetSize(img, n, junk)) <==> !RaggedCut(img, n)
  {
  }

  /** SETATTR to nothing makes any image sound again, whatever its scratch file had come to. */
  lemma EmptyIsSound(img: Image, junk: seq<byte>)
    requires img.Valid() && img.Content() != []
    ensures Sound(SetSize(img, 0, junk))
  {
    if img.Spilled? {
      CutRestores(img.file, 0);
    }
  }
}
