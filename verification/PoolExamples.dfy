/**
 Small runs of the pending pool that end in something a client would not expect.
 */
module PoolExamples {
  import opened Bytes
  import opened BlockCalc
  import opened TrackSpace
  import opened Admission
  import opened MemberImage
  import opened PoolState
  import opened PendingPool
  import FullTable

  const KEY: Key := Key("A.B", "M")
  const OTHER: Key := Key("A.B", "N")

  /** Eighty-byte records, 39 to a block, in a dataset of thirty tracks on the first of which there is
      one block. */
  const CARDS: Dcb := Dcb(F, 3120, 80)
  const SPACE: Dscb := Dscb(5, 19069, 30, 0, 1, 0, 1, 15000)

  /** Everything works, but for what is read of the VTOC and how writing a member ends. */
  function Luck(stow: StowFate, vtoc: Option<Dscb>): Fate {
    Fate(1, true, true, Done, Done, stow, vtoc, true, [], true, true)
  }

  /** In an empty pool a new member gets the first slot, and its locks. */
  lemma BeginsAtOnce(pool: Pool, n: nat)
    requires pool.slots == seq(MAX_PENDING, _ => Free) && pool.enqs == {}
    requires forall k: nat :: pool.fate(k).enqueues && pool.fate(k).allocates
    ensures CanBegin(pool.fate, pool.slots, pool.enqs, KEY, n) && !Pending(pool.slots, KEY) && TheChosen(pool.slots) == 0
  {
    assert Chosen(pool.slots, 0);
    ChosenOnce(pool.slots, 0);
  }

  /** A WRITE at the start of a member on disk whose space cannot be predicted is refused, and from
      then on a client sees an empty member where the disk still has the old one. */
  method RefusedWriteHides() returns (status: Status, onDisk: Option<seq<byte>>, ghost seen: Option<seq<byte>>)
    ensures !status.Ok? && onDisk == Some([5]) && seen == Some([])
  {
    var pool := new Pool((_: nat) => Luck(Stowed, None), map[KEY.dsname := CARDS], map[KEY := [5]]);
    BeginsAtOnce(pool, 1);
    assert pool.Now().LeavesEmpty(pool.fate, KEY, 0, 1);
    status := pool.Write(KEY, [1], 0);
    onDisk, seen := OnDisk(pool.disk, KEY), pool.View(KEY);
  }

  const ABEND: StowFate := Abends(0xB37, Some([5]))

  /** A member of one byte takes one block, for which there is room. */
  lemma OneByteFits(slots: seq<Slot>)
    requires slots == seq(MAX_PENDING, _ => Free)
    ensures Room(slots, map[KEY.dsname := CARDS], 0, KEY.dsname, [1], Some(SPACE))
  {
    NoOthers(slots, MAX_PENDING);
    OneByteNeeds();
    OneBlockFits();
    assert [1] + [] == [1];
  }

  lemma OneByteNeeds()
    ensures Need(Folded(CARDS, [1]).est) == 1
  {
    OneByteFolds();
    OneByteEmits();
  }

  lemma OneByteFolds()
    ensures Folded(CARDS, [1]).est == Estimate(CARDS, 0, 0, 1)
  {
    assert [1][1..] == [];
  }

  lemma OneByteEmits()
    ensures EmitLine(Estimate(CARDS, 0, 0, 1), 1) == Estimate(CARDS, 0, 80, 1)
  {
    assert Quotient(3120, 80) == 39 && Quotient(0, 80) == 0 && Quotient(1, 39) == 0 && Product(1, 80) == 80;
  }

  lemma OneBlockFits()
    ensures Chain(SPACE, EndOf(SPACE), [1])
  {
    assert EndOf(SPACE) == 1 && TT(1) == 0 && R(1) == 1;
    assert TrackRoom(SPACE, 0, 1) == 3;
    assert Available(SPACE, 1) == 148;
    assert [1][1..] == [];
  }

  lemma {:induction false} NoOthers(slots: seq<Slot>, n: nat)
    requires n <= |slots| && forall j | 0 <= j < |slots| :: slots[j].Free?
    ensures OtherNeeds(slots, 0, KEY.dsname, n) == []
  {
    if n > 0 {
      NoOthers(slots, n - 1);
    }
  }

  /** A WRITE of [1] over a member [5] on disk, where every STOW will abend for want of space. */
  method WriteOver() returns (pool: Pool)
    ensures fresh(pool) && fresh(pool.full) && pool.Valid() && (forall n: nat :: pool.fate(n) == Luck(ABEND, Some(SPACE)))
    ensures pool.View(KEY) == Some([1]) && OnDisk(pool.disk, KEY) == Some([5]) && Dirty(pool.slots, KEY)
  {
    pool := new Pool((_: nat) => Luck(ABEND, Some(SPACE)), map[KEY.dsname := CARDS], map[KEY := [5]]);
    BeginsAtOnce(pool, 1);
    assert Splice([], 0, [1]) == [1];
    OneByteFits(pool.slots);
    assert pool.Now().Accepts(pool.fate, KEY, [1], 0);
    var write := pool.Write(KEY, [1], 0);
  }

  /** The COMMIT fails, and leaves the slot clean. */
  method WriteThenAbend() returns (pool: Pool, status: Status)
    ensures fresh(pool) && fresh(pool.full) && pool.Valid() && !status.Ok?
    ensures pool.View(KEY) == Some([1]) && OnDisk(pool.disk, KEY) == Some([5]) && !Dirty(pool.slots, KEY)
    ensures forall n: nat :: pool.fate(n).renames
  {
    pool := WriteOver();
    status := pool.Commit(KEY);
  }

  /** After that the next COMMIT reports success, and so does a RENAME; but the disk has the old
      bytes, and they are what the client finds under the new name. */
  method CommitAfterAbend() returns (commit: Status, rename: Status, onDisk: Option<seq<byte>>,
                                     ghost before: Option<seq<byte>>, ghost after: Option<seq<byte>>)
    ensures commit.Ok? && onDisk == Some([5]) && before == Some([1])
    ensures rename.Ok? && after == Some([5])
  {
    var pool, _ := WriteThenAbend();
    commit := pool.Commit(KEY);
    onDisk, before := OnDisk(pool.disk, KEY), pool.View(KEY);
    rename := pool.Rename(KEY, OTHER);
    after := pool.View(OTHER);
  }

  /** A WRITE whose offset and count wrap passes the test of the size limit. */
  lemma WrappedWritePasses()
    ensures WithinCap(U64 - 1, 2) && U64 - 1 + 2 > MAX_MEMBER_BYTES
  {
    CapWraps(U64 - 1, 2);
  }
}
