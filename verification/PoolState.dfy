/**
 The slots of the pending-member pool as values: which keys they hold, what a client sees
 through them, and what replacing one slot does to both.
 */
module PoolState {
  import opened Bytes
  import opened Packing
  import opened BlockCalc
  import opened TrackSpace
  import opened Admission
  import opened MemberImage

  datatype Key = Key(dsname: string, member: string)

  /** A pool slot. `enq` and `alloc` say which resources it holds. */
  datatype Slot =
    | Free
    | Used(key: Key, image: Image, account: Account, dirty: bool, lastWrite: int, enq: bool, alloc: bool)
  {
    /** The member's bytes, as a reader gets them. */
    function Content(): seq<byte>
      requires Used?
    {
      image.Content()
    }
  }

  predicate Holds(s: Slot, key: Key) {
    s.Used? && s.key == key
  }

  /** No two used slots share a key. */
  ghost predicate Distinct(slots: seq<Slot>) {
    forall i, j | 0 <= i < j < |slots| :: slots[i].Used? && slots[j].Used? ==> slots[i].key != slots[j].key
  }

  ghost predicate Pending(slots: seq<Slot>, key: Key) {
    exists i :: 0 <= i < |slots| && Holds(slots[i], key)
  }

  ghost function EnqKeys(slots: seq<Slot>): set<Key> {
    set i | 0 <= i < |slots| && slots[i].Used? && slots[i].enq :: slots[i].key
  }

  ghost function AllocKeys(slots: seq<Slot>): set<Key> {
    set i | 0 <= i < |slots| && slots[i].Used? && slots[i].alloc :: slots[i].key
  }

  ghost function UsedKeys(slots: seq<Slot>): set<Key> {
    set i | 0 <= i < |slots| && slots[i].Used? :: slots[i].key
  }

  /** The bytes of `s` from `off`, at most `count` of them. */
  function Slice(s: seq<byte>, off: nat, count: nat): seq<byte> {
    if off >= |s| then [] else if off + count <= |s| then s[off..off + count] else s[off..]
  }

  function OnDisk(disk: map<Key, seq<byte>>, key: Key): Option<seq<byte>> {
    if key in disk then Some(disk[key]) else None
  }

  /** What a client sees of a member: its pending bytes if any, else what is on disk. */
  ghost function Visible(slots: seq<Slot>, disk: map<Key, seq<byte>>, key: Key): Option<seq<byte>> {
    if Pending(slots, key) then
      var i :| 0 <= i < |slots| && Holds(slots[i], key);
      Some(slots[i].Content())
    else OnDisk(disk, key)
  }

  lemma Overwritten(slots: seq<Slot>, i: nat, a: Slot, b: Slot)
    requires i < |slots|
    ensures slots[i := a][i := b] == slots[i := b]
    ensures slots[i] == b ==> slots[i := b] == slots
  {
  }

  /** The slot of a pending member. */
  ghost function IndexOf(slots: seq<Slot>, key: Key): (i: nat)
    requires Pending(slots, key)
    ensures i < |slots| && Holds(slots[i], key)
  {
    var i: nat :| i < |slots| && Holds(slots[i], key);
    i
  }

  ghost function SlotAt(slots: seq<Slot>, key: Key): (s: Slot)
    requires Pending(slots, key)
    ensures Holds(s, key)
  {
    slots[IndexOf(slots, key)]
  }

  /** The image of a pending member, or an empty one. */
  ghost function ImageAt(slots: seq<Slot>, key: Key): Image {
    if Pending(slots, key) then SlotAt(slots, key).image else EMPTY
  }

  /** The image a slot has once the prediction for a store of `count` bytes at `off` has passed: what
      it reads of the member makes every block readable. */
  function Prepared(dcbs: map<string, Dcb>, s: Slot, off: nat, count: nat): Image
    requires s.Used?
  {
    if s.key.dsname in dcbs && Rereads(|s.Content()|, s.account.consumed, off, count) then Read(s.image, 1) else s.image
  }

  /** The image that such a store starts from: the pending one prepared, or an empty one. */
  ghost function BaseAt(slots: seq<Slot>, dcbs: map<string, Dcb>, key: Key, off: nat, count: nat): Image {
    if Pending(slots, key) then Prepared(dcbs, SlotAt(slots, key), off, count) else EMPTY
  }

  /** The pending image of `key`, if any, is sound. */
  ghost predicate SoundFor(slots: seq<Slot>, key: Key) {
    forall i | 0 <= i < |slots| && Holds(slots[i], key) :: Sound(slots[i].image)
  }

  lemma SoundImage(slots: seq<Slot>, key: Key)
    requires Distinct(slots)
    ensures SoundFor(slots, key) <==> Sound(ImageAt(slots, key))
  {
    if Pending(slots, key) {
      var i :| 0 <= i < |slots| && Holds(slots[i], key);
      ImageIs(slots, i);
      assert forall j | 0 <= j < |slots| && Holds(slots[j], key) :: j == i;
    }
  }

  /** Freeing slots keeps images sound. */
  lemma FewerSound(was: seq<Slot>, now: seq<Slot>)
    requires |was| == |now| && forall j | 0 <= j < |was| :: now[j].Free? || now[j] == was[j]
    ensures forall k :: SoundFor(was, k) ==> SoundFor(now, k)
  {
  }

  /** What setting a slot does to the soundness of images. */
  lemma SetSound(slots: seq<Slot>, i: nat, s: Slot)
    requires i < |slots|
    ensures forall k :: SoundFor(slots, k) && (Holds(s, k) ==> Sound(s.image)) ==> SoundFor(slots[i := s], k)
  {
  }

  /** A pending member that is not dirty is on disk as it is. */
  ghost predicate TrueSlot(s: Slot, disk: map<Key, seq<byte>>) {
    s.Used? ==> s.dirty || OnDisk(disk, s.key) == Some(s.Content())
  }

  ghost predicate AllTrue(slots: seq<Slot>, disk: map<Key, seq<byte>>) {
    forall i | 0 <= i < |slots| :: TrueSlot(slots[i], disk)
  }

  /** The member has pending bytes that are not on disk yet. */
  ghost predicate Dirty(slots: seq<Slot>, key: Key) {
    exists i :: 0 <= i < |slots| && Holds(slots[i], key) && slots[i].dirty
  }

  lemma ImageIs(slots: seq<Slot>, i: nat)
    requires Distinct(slots) && i < |slots| && slots[i].Used?
    ensures Pending(slots, slots[i].key) && IndexOf(slots, slots[i].key) == i && SlotAt(slots, slots[i].key) == slots[i]
    ensures Dirty(slots, slots[i].key) == slots[i].dirty
  {
    assert Holds(slots[i], slots[i].key);
    forall j | 0 <= j < |slots| && Holds(slots[j], slots[i].key)
      ensures j == i
    {
    }
  }

  lemma VisibleIsImage(slots: seq<Slot>, disk: map<Key, seq<byte>>, key: Key)
    requires Distinct(slots)
    ensures Visible(slots, disk, key)
         == if Pending(slots, key) then Some(ImageAt(slots, key).Content()) else OnDisk(disk, key)
  {
    if Pending(slots, key) {
      var i :| 0 <= i < |slots| && Holds(slots[i], key);
      VisibleAt(slots, disk, i);
      ImageIs(slots, i);
    }
  }

  /** The slot a new member gets: the first free one, else the first of the least recently
      written. */
  ghost predicate Chosen(slots: seq<Slot>, i: nat) {
    && i < |slots|
    && if slots[i].Free? then forall j | 0 <= j < i :: slots[j].Used?
       else && (forall j | 0 <= j < |slots| :: slots[j].Used? && slots[i].lastWrite <= slots[j].lastWrite)
            && forall j | 0 <= j < i :: slots[i].lastWrite < slots[j].lastWrite
  }

  ghost function TheChosen(slots: seq<Slot>): nat {
    if exists i: nat :: Chosen(slots, i) then
      var i: nat :| Chosen(slots, i);
      i
    else 0
  }

  lemma ChosenOnce(slots: seq<Slot>, i: nat)
    requires Chosen(slots, i)
    ensures TheChosen(slots) == i
  {
  }

  lemma VisibleAt(slots: seq<Slot>, disk: map<Key, seq<byte>>, i: nat)
    requires Distinct(slots) && i < |slots| && slots[i].Used?
    ensures Visible(slots, disk, slots[i].key) == Some(slots[i].Content())
  {
    assert Holds(slots[i], slots[i].key);
  }

  /** Replacing a slot leaves every key it neither held nor holds as it was. */
  lemma ReplaceElsewhere(slots: seq<Slot>, i: nat, s: Slot, k: Key)
    requires Distinct(slots) && i < |slots| && !Holds(slots[i], k) && !Holds(s, k)
    requires Distinct(slots[i := s])
    ensures Pending(slots[i := s], k) == Pending(slots, k)
    ensures forall disk :: Visible(slots[i := s], disk, k) == Visible(slots, disk, k)
  {
    var after := slots[i := s];
    if Pending(slots, k) {
      var j :| 0 <= j < |slots| && Holds(slots[j], k);
      assert Holds(after[j], k);
      forall disk
        ensures Visible(after, disk, k) == Visible(slots, disk, k)
      {
        VisibleAt(slots, disk, j);
        VisibleAt(after, disk, j);
      }
    }
    if Pending(after, k) {
      var j :| 0 <= j < |after| && Holds(after[j], k);
      assert Holds(slots[j], k);
    }
  }

  /** The keys held after a slot is freed. */
  lemma FreeKeys(slots: seq<Slot>, i: nat)
    requires Distinct(slots) && i < |slots| && slots[i].Used?
    ensures Distinct(slots[i := Free]) && !Pending(slots[i := Free], slots[i].key)
    ensures EnqKeys(slots[i := Free]) == EnqKeys(slots) - {slots[i].key}
    ensures AllocKeys(slots[i := Free]) == AllocKeys(slots) - {slots[i].key}
  {
    var after, key := slots[i := Free], slots[i].key;
    assert forall j | 0 <= j < |slots| && j != i :: after[j] == slots[j] && !Holds(slots[j], key);
    forall k | k in EnqKeys(slots) - {key}
      ensures k in EnqKeys(after)
    {
      var j :| 0 <= j < |slots| && slots[j].Used? && slots[j].enq && slots[j].key == k;
      assert after[j] == slots[j];
    }
    forall k | k in AllocKeys(slots) - {key}
      ensures k in AllocKeys(after)
    {
      var j :| 0 <= j < |slots| && slots[j].Used? && slots[j].alloc && slots[j].key == k;
      assert after[j] == slots[j];
    }
  }

  /** The keys held after a slot that held nothing, or kept its key, is set. */
  lemma SetKeys(slots: seq<Slot>, i: nat, s: Slot)
    requires Distinct(slots) && i < |slots| && s.Used?
    requires Holds(slots[i], s.key) || (slots[i].Free? && !Pending(slots, s.key))
    ensures Distinct(slots[i := s])
    ensures EnqKeys(slots[i := s]) == EnqKeys(slots) - {s.key} + (if s.enq then {s.key} else {})
    ensures AllocKeys(slots[i := s]) == AllocKeys(slots) - {s.key} + (if s.alloc then {s.key} else {})
  {
    var after := slots[i := s];
    assert forall j | 0 <= j < |slots| && j != i :: after[j] == slots[j] && !Holds(slots[j], s.key);
    assert after[i] == s;
    forall k | k in EnqKeys(slots) - {s.key}
      ensures k in EnqKeys(after)
    {
      var j :| 0 <= j < |slots| && slots[j].Used? && slots[j].enq && slots[j].key == k;
      assert after[j] == slots[j];
    }
    forall k | k in AllocKeys(slots) - {s.key}
      ensures k in AllocKeys(after)
    {
      var j :| 0 <= j < |slots| && slots[j].Used? && slots[j].alloc && slots[j].key == k;
      assert after[j] == slots[j];
    }
  }

  lemma KeyFlags(slots: seq<Slot>, i: nat)
    requires Distinct(slots) && i < |slots| && slots[i].Used?
    ensures slots[i].key in EnqKeys(slots) <==> slots[i].enq
    ensures slots[i].key in AllocKeys(slots) <==> slots[i].alloc
  {
    assert forall j | 0 <= j < |slots| && j != i :: !Holds(slots[j], slots[i].key);
  }

  /** Setting a slot's enqueue flag. */
  lemma SetEnq(slots: seq<Slot>, i: nat, on: bool)
    requires Distinct(slots) && i < |slots| && slots[i].Used?
    ensures var after := slots[i := slots[i].(enq := on)];
      && Distinct(after) && AllocKeys(after) == AllocKeys(slots)
      && EnqKeys(after) == if on then EnqKeys(slots) + {slots[i].key} else EnqKeys(slots) - {slots[i].key}
  {
    KeyFlags(slots, i);
    SetKeys(slots, i, slots[i].(enq := on));
  }

  /** Setting a slot's allocation flag. */
  lemma SetAlloc(slots: seq<Slot>, i: nat, on: bool)
    requires Distinct(slots) && i < |slots| && slots[i].Used?
    ensures var after := slots[i := slots[i].(alloc := on)];
      && Distinct(after) && EnqKeys(after) == EnqKeys(slots)
      && AllocKeys(after) == if on then AllocKeys(slots) + {slots[i].key} else AllocKeys(slots) - {slots[i].key}
  {
    KeyFlags(slots, i);
    SetKeys(slots, i, slots[i].(alloc := on));
  }

  /** The enqueues and allocations held are exactly those the slots record, plus the leaked. */
  ghost predicate Accounts(slots: seq<Slot>, enqs: set<Key>, leakedEnqs: set<Key>,
                           allocs: set<Key>, leakedAllocs: set<Key>)
  {
    && Distinct(slots)
    && enqs == EnqKeys(slots) + leakedEnqs && EnqKeys(slots) !! leakedEnqs
    && allocs == AllocKeys(slots) + leakedAllocs
  }

  lemma TakeAlloc(slots: seq<Slot>, i: nat, e: set<Key>, le: set<Key>, a: set<Key>, la: set<Key>)
    requires Accounts(slots, e, le, a, la) && i < |slots| && slots[i].Used? && !slots[i].alloc
    ensures Accounts(slots[i := slots[i].(alloc := true)], e, le, a + {slots[i].key}, la)
  {
    KeyFlags(slots, i);
    SetAlloc(slots, i, true);
  }

  /** Giving an allocation back, or failing to. */
  lemma DropAlloc(slots: seq<Slot>, i: nat, e: set<Key>, le: set<Key>, a: set<Key>, la: set<Key>)
    requires Accounts(slots, e, le, a, la) && i < |slots| && slots[i].Used? && slots[i].alloc
    ensures Accounts(slots[i := slots[i].(alloc := false)], e, le, a - ({slots[i].key} - la), la)
    ensures Accounts(slots[i := slots[i].(alloc := false)], e, le, a, la + {slots[i].key})
  {
    KeyFlags(slots, i);
    SetAlloc(slots, i, false);
  }

  lemma TakeEnq(slots: seq<Slot>, i: nat, e: set<Key>, le: set<Key>, a: set<Key>, la: set<Key>)
    requires Accounts(slots, e, le, a, la) && i < |slots| && slots[i].Used? && slots[i].key !in e
    ensures Accounts(slots[i := slots[i].(enq := true)], e + {slots[i].key}, le, a, la)
  {
    SetEnq(slots, i, true);
  }

  /** Giving an enqueue back, or failing to. */
  lemma DropEnq(slots: seq<Slot>, i: nat, e: set<Key>, le: set<Key>, a: set<Key>, la: set<Key>)
    requires Accounts(slots, e, le, a, la) && i < |slots| && slots[i].Used? && slots[i].enq
    ensures Accounts(slots[i := slots[i].(enq := false)], e - {slots[i].key}, le, a, la)
    ensures Accounts(slots[i := slots[i].(enq := false)], e, le + {slots[i].key}, a, la)
  {
    KeyFlags(slots, i);
    SetEnq(slots, i, false);
  }

  /** A slot that holds nothing can be freed. */
  lemma FreeIdleKeys(slots: seq<Slot>, i: nat)
    requires Distinct(slots) && i < |slots| && slots[i].Used? && !slots[i].enq && !slots[i].alloc
    ensures Distinct(slots[i := Free]) && !Pending(slots[i := Free], slots[i].key)
    ensures EnqKeys(slots[i := Free]) == EnqKeys(slots) && AllocKeys(slots[i := Free]) == AllocKeys(slots)
  {
    FreeKeys(slots, i);
    KeyFlags(slots, i);
  }

  /** The account of a slot is true to its member: it is the fold of a stream that the content
      begins. */
  ghost predicate Counted(s: Slot, dcb: Dcb)
    requires s.Used?
  {
    exists stream :: Tracks(s.account, dcb, s.Content(), stream)
  }

  ghost predicate CountedAt(s: Slot, dcbs: map<string, Dcb>) {
    s.Used? && s.key.dsname in dcbs ==> Counted(s, dcbs[s.key.dsname])
  }

  ghost predicate AllCounted(slots: seq<Slot>, dcbs: map<string, Dcb>) {
    forall i | 0 <= i < |slots| :: CountedAt(slots[i], dcbs)
  }

  lemma SetCounted(slots: seq<Slot>, dcbs: map<string, Dcb>, i: nat, s: Slot)
    requires i < |slots|
    ensures AllCounted(slots, dcbs) && CountedAt(s, dcbs) ==> AllCounted(slots[i := s], dcbs)
  {
  }

  /** An account that has consumed just what the member holds is the fold of its content. */
  lemma CountedExactly(s: Slot, dcb: Dcb)
    requires s.Used? && Counted(s, dcb) && s.account.consumed == |s.Content()|
    ensures s.account == Folded(dcb, s.Content())
  {
    var stream :| Tracks(s.account, dcb, s.Content(), stream);
    assert stream == s.Content();
  }

  // ----- Space ----------------------------------------------------------------------------

  /** Charges of the members pending for a dataset among the first `n` slots, but for slot `i`. */
  function OtherNeeds(slots: seq<Slot>, i: nat, dsname: string, n: nat): seq<nat>
    requires n <= |slots|
  {
    if n == 0 then []
    else
      var s := slots[n - 1];
      OtherNeeds(slots, i, dsname, n - 1) +
      if n - 1 != i && s.Used? && s.key.dsname == dsname then [Need(s.account.est)] else []
  }

  /** Blocks the text of a slot's member takes in a dataset, laid out from scratch. */
  ghost function Share(s: Slot, dsname: string, dcb: Dcb): nat
    requires dcb.Usable()
  {
    if s.Used? && s.key.dsname == dsname then Max(1, TextBlocks(dcb, s.Content())) else 0
  }

  /** Blocks the texts of all the members pending for a dataset take. */
  ghost function Footprint(slots: seq<Slot>, dsname: string, dcb: Dcb, n: nat): nat
    requires n <= |slots| && dcb.Usable()
  {
    if n == 0 then 0 else Footprint(slots, dsname, dcb, n - 1) + Share(slots[n - 1], dsname, dcb)
  }

  /** What a slot is charged for a dataset. */
  function Charge(s: Slot, dsname: string): nat {
    if s.Used? && s.key.dsname == dsname then Need(s.account.est) else 0
  }

  /** What slot `i` and the others among the first `n` are charged for a dataset. */
  function Charges(slots: seq<Slot>, i: nat, dsname: string, n: nat): nat
    requires i < |slots| && n <= |slots|
  {
    Sum(OtherNeeds(slots, i, dsname, n)) + if i < n then Charge(slots[i], dsname) else 0
  }

  lemma OneMoreCharge(slots: seq<Slot>, i: nat, dsname: string, n: nat)
    requires i < |slots| && 0 < n <= |slots|
    ensures Charges(slots, i, dsname, n) == Charges(slots, i, dsname, n - 1) + Charge(slots[n - 1], dsname)
  {
    var others, s := OtherNeeds(slots, i, dsname, n - 1), slots[n - 1];
    if n - 1 != i && s.Used? && s.key.dsname == dsname {
      SumAppend(others, [Need(s.account.est)]);
      assert [Need(s.account.est)][1..] == [];
    } else {
      assert others + [] == others;
    }
  }

  /** A slot whose account is true is charged for the layout of its text at least. */
  lemma ChargeCovers(s: Slot, dsname: string, dcb: Dcb)
    requires dcb.Usable() && (s.Used? && s.key.dsname == dsname ==> Counted(s, dcb))
    ensures Share(s, dsname, dcb) <= Charge(s, dsname)
  {
    if s.Used? && s.key.dsname == dsname {
      var stream :| Tracks(s.account, dcb, s.Content(), stream);
      NeverUndercounts(s.account, dcb, s.Content(), stream);
    }
  }

  /** Every account of a dataset is true. */
  ghost predicate CountedFor(slots: seq<Slot>, dsname: string, dcb: Dcb) {
    forall j | 0 <= j < |slots| && slots[j].Used? && slots[j].key.dsname == dsname :: Counted(slots[j], dcb)
  }

  /** The charges cover the layouts, member by member. */
  lemma {:induction false} NeedsCoverFootprint(slots: seq<Slot>, i: nat, dsname: string, dcb: Dcb, n: nat)
    requires dcb.Usable() && n <= |slots| && CountedFor(slots, dsname, dcb)
    requires i < |slots|
    ensures Footprint(slots, dsname, dcb, n) <= Charges(slots, i, dsname, n)
  {
    if n > 0 {
      NeedsCoverFootprint(slots, i, dsname, dcb, n - 1);
      OneMoreCharge(slots, i, dsname, n);
      ChargeCovers(slots[n - 1], dsname, dcb);
    }
  }

  /** The end of a dataset. */
  function EndOf(ds: Dscb): nat {
    Ttr(ds.lstarTT, ds.lstarR)
  }

  /** A chain that passes, and whose predicted ends stay inside the allocation, holds the layouts of
      every member pending for the dataset. */
  lemma ChainHoldsFootprint(slots: seq<Slot>, i: nat, dsname: string, dcb: Dcb, ds: Dscb)
    requires dcb.Usable() && CountedFor(slots, dsname, dcb)
    requires i < |slots| && slots[i].Used? && slots[i].key.dsname == dsname
    requires Sane(ds) && StaysInside(ds, EndOf(ds), AdmitNeeds(slots, i, dsname, slots[i].account.est, |slots|))
    requires Chain(ds, EndOf(ds), AdmitNeeds(slots, i, dsname, slots[i].account.est, |slots|))
    ensures Footprint(slots, dsname, dcb, |slots|) <= Available(ds, EndOf(ds))
  {
    var own, others := Need(slots[i].account.est), OtherNeeds(slots, i, dsname, |slots|);
    EndIsAhead(ds);
    ChainInsideIsSum(ds, EndOf(ds), [own] + others);
    assert ([own] + others)[1..] == others;
    NeedsCoverFootprint(slots, i, dsname, dcb, |slots|);
  }

  lemma EndIsAhead(ds: Dscb)
    requires Sane(ds)
    ensures Ahead(ds, EndOf(ds)) && TT(EndOf(ds)) <= 0x80_0000
  {
    assert TT(EndOf(ds)) == ds.lstarTT && R(EndOf(ds)) == ds.lstarR;
  }

  /** The layouts of all members pending for a dataset fit the space its VTOC entry shows, when the
      chain that was predicted with slot `i` first stays inside the allocation. */
  ghost predicate InSpace(slots: seq<Slot>, i: nat, dcb: Dcb, ds: Dscb)
    requires i < |slots| && slots[i].Used? && dcb.Usable()
  {
    var dsname := slots[i].key.dsname;
    Sane(ds) && StaysInside(ds, EndOf(ds), AdmitNeeds(slots, i, dsname, slots[i].account.est, |slots|)) ==>
      Footprint(slots, dsname, dcb, |slots|) <= Available(ds, EndOf(ds))
  }

  /** Everything pending for the dataset of `key` fits it. */
  ghost predicate Fits(slots: seq<Slot>, dcbs: map<string, Dcb>, dscb: map<string, Dscb>, key: Key) {
    key.dsname in dcbs && dcbs[key.dsname].Usable() ==>
      && key.dsname in dscb
      && forall i | 0 <= i < |slots| && Holds(slots[i], key) :: InSpace(slots, i, dcbs[key.dsname], dscb[key.dsname])
  }

  /** Everything pending for the dataset of `key` fits it, if every account of it is true. */
  ghost predicate SpaceFor(slots: seq<Slot>, dcbs: map<string, Dcb>, dscb: map<string, Dscb>, key: Key) {
    key.dsname in dcbs && CountedFor(slots, key.dsname, dcbs[key.dsname]) ==> Fits(slots, dcbs, dscb, key)
  }

  lemma CountedFits(slots: seq<Slot>, dcbs: map<string, Dcb>, dscb: map<string, Dscb>, key: Key)
    requires AllCounted(slots, dcbs) && SpaceFor(slots, dcbs, dscb, key)
    ensures Fits(slots, dcbs, dscb, key)
  {
    if key.dsname in dcbs {
      forall j | 0 <= j < |slots| && slots[j].Used? && slots[j].key.dsname == key.dsname
        ensures Counted(slots[j], dcbs[key.dsname])
      {
        assert CountedAt(slots[j], dcbs);
      }
    }
  }

  /** Without usable secondary space every chain stays inside the allocation. */
  lemma InSpaceWithoutSecondary(slots: seq<Slot>, i: nat, dcb: Dcb, ds: Dscb)
    requires i < |slots| && slots[i].Used? && dcb.Usable() && InSpace(slots, i, dcb, ds)
    requires Sane(ds) && Secondary(ds) == 0
    ensures Footprint(slots, slots[i].key.dsname, dcb, |slots|) <= Available(ds, EndOf(ds))
  {
    EndIsAhead(ds);
    NoSecondaryStays(ds, EndOf(ds), AdmitNeeds(slots, i, slots[i].key.dsname, slots[i].account.est, |slots|));
  }

  /** Charges in the order the admit loop meets them: the writer's own, then the others'. */
  function AdmitNeeds(slots: seq<Slot>, i: nat, dsname: string, own: Estimate, n: nat): seq<nat>
    requires n <= |slots|
  {
    [Need(own)] + OtherNeeds(slots, i, dsname, n)
  }

  lemma {:induction false} ChainPrefix(ds: Dscb, ttr: nat, a: seq<nat>, b: seq<nat>)
    requires Chain(ds, ttr, a + b)
    ensures Chain(ds, ttr, a)
    decreases |a|
  {
    if a != [] {
      assert (a + b)[1..] == a[1..] + b;
      ChainPrefix(ds, Advance(ds, ttr, a[0]), a[1..], b);
    }
  }

  lemma BrokenChain(ds: Dscb, ttr: nat, a: seq<nat>, all: seq<nat>)
    requires a <= all && !Chain(ds, ttr, a)
    ensures !Chain(ds, ttr, all)
  {
    assert all == a + all[|a|..];
    if Chain(ds, ttr, a + all[|a|..]) {
      ChainPrefix(ds, ttr, a, all[|a|..]);
    }
  }

  lemma {:induction false} NeedsPrefix(slots: seq<Slot>, i: nat, dsname: string, own: Estimate, m: nat, n: nat)
    requires m <= n <= |slots|
    ensures AdmitNeeds(slots, i, dsname, own, m) <= AdmitNeeds(slots, i, dsname, own, n)
    decreases n
  {
    if m < n {
      NeedsPrefix(slots, i, dsname, own, m, n - 1);
    }
  }

  lemma NextNeed(slots: seq<Slot>, i: nat, dsname: string, own: Estimate, j: nat)
    requires j < |slots|
    ensures var sofar, s := AdmitNeeds(slots, i, dsname, own, j), slots[j];
      AdmitNeeds(slots, i, dsname, own, j + 1)
      == if j != i && s.Used? && s.key.dsname == dsname then sofar + [Need(s.account.est)] else sofar
  {
  }

  /** The prediction for slot `i` passes: the VTOC can be read, and its needs chain with the others'. */
  ghost predicate Passes(slots: seq<Slot>, i: nat, dsname: string, own: Estimate, vtoc: Option<Dscb>) {
    && vtoc.Some? && vtoc.value.bpt > 0
    && Chain(vtoc.value, EndOf(vtoc.value), AdmitNeeds(slots, i, dsname, own, |slots|))
  }

  /** There is room for slot `i` to hold `flat`. A dataset without a usable DSCB is not predicted. */
  ghost predicate Room(slots: seq<Slot>, dcbs: map<string, Dcb>, i: nat, dsname: string, flat: seq<byte>, vtoc: Option<Dscb>) {
    dsname in dcbs ==> Passes(slots, i, dsname, Folded(dcbs[dsname], flat).est, vtoc)
  }

  /** What slot `i` holds now has no part in that. */
  lemma SameRoom(a: seq<Slot>, b: seq<Slot>, dcbs: map<string, Dcb>, i: nat, dsname: string, flat: seq<byte>, vtoc: Option<Dscb>)
    requires i < |a| == |b| && b == a[i := b[i]]
    ensures Room(a, dcbs, i, dsname, flat, vtoc) == Room(b, dcbs, i, dsname, flat, vtoc)
  {
    SameOthers(a, b, i, dsname, |a|);
  }

  /** The admit loop passes exactly when the whole chain does. */
  method FitTogether(slots: seq<Slot>, i: nat, dsname: string, own: Estimate, ds: Dscb) returns (ok: bool)
    ensures ok == (ds.bpt > 0 && Chain(ds, Ttr(ds.lstarTT, ds.lstarR), AdmitNeeds(slots, i, dsname, own, |slots|)))
  {
    ghost var start := Ttr(ds.lstarTT, ds.lstarR);
    ghost var all := AdmitNeeds(slots, i, dsname, own, |slots|);
    var ttr;
    ok, ttr := WillMemberFit(own, ds, Ttr(ds.lstarTT, ds.lstarR));
    assert AdmitNeeds(slots, i, dsname, own, 0) == [Need(own)] && [Need(own)][1..] == [];
    if !ok {
      return;
    }
    for j := 0 to |slots|
      invariant ds.bpt > 0 && Chain(ds, start, AdmitNeeds(slots, i, dsname, own, j))
      invariant ttr == ChainEnd(ds, start, AdmitNeeds(slots, i, dsname, own, j))
    {
      ghost var sofar := AdmitNeeds(slots, i, dsname, own, j);
      NextNeed(slots, i, dsname, own, j);
      if j != i && slots[j].Used? && slots[j].key.dsname == dsname {
        var e := slots[j].account.est;
        ChainOneMore(ds, start, sofar, Need(e));
        ok, ttr := WillMemberFit(e, ds, ttr);
        if !ok {
          NeedsPrefix(slots, i, dsname, own, j + 1, |slots|);
          BrokenChain(ds, start, sofar + [Need(e)], all);
          return;
        }
      }
    }
  }

  /** The others' charges do not depend on slot `i`. */
  lemma {:induction false} SameOthers(a: seq<Slot>, b: seq<Slot>, i: nat, dsname: string, n: nat)
    requires n <= |a| == |b| && forall j | 0 <= j < |a| && j != i :: a[j] == b[j]
    ensures OtherNeeds(a, i, dsname, n) == OtherNeeds(b, i, dsname, n)
  {
    if n > 0 {
      SameOthers(a, b, i, dsname, n - 1);
    }
  }

  lemma PendingSame(a: seq<Slot>, b: seq<Slot>)
    requires |a| == |b| && forall j | 0 <= j < |a| :: a[j].Used? == b[j].Used? && (a[j].Used? ==> a[j].key == b[j].key)
    ensures forall k :: Pending(a, k) == Pending(b, k)
  {
    forall k
      ensures Pending(a, k) == Pending(b, k)
    {
      if Pending(a, k) {
        var j :| 0 <= j < |a| && Holds(a[j], k);
        assert Holds(b[j], k);
      }
      if Pending(b, k) {
        var j :| 0 <= j < |b| && Holds(b[j], k);
        assert Holds(a[j], k);
      }
    }
  }

  lemma AllHeld(slots: seq<Slot>)
    requires forall i | 0 <= i < |slots| :: slots[i].Used? ==> slots[i].enq && slots[i].alloc
    ensures EnqKeys(slots) == AllocKeys(slots) == UsedKeys(slots)
  {
    forall k | k in UsedKeys(slots)
      ensures k in EnqKeys(slots) && k in AllocKeys(slots)
    {
      var i :| 0 <= i < |slots| && slots[i].Used? && slots[i].key == k;
      assert slots[i].enq && slots[i].alloc;
    }
  }
}
