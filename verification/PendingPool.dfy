/**
 The pool of pending members (src/mvspww.c) with the flush (src/mvspwfl.c) and the VFS calls
 that go through it (src/mvsvfs.c). Each public method is one server request.

 Everything the operating system decides is drawn from `fate`, one record per call, so that
 every theorem holds for every pattern of clock readings, failures and abends.
 */
module PendingPool {
  import opened Bytes
  import opened BlockCalc
  import opened TrackSpace
  import opened Admission
  import opened MemberImage
  import opened PoolState
  import FullTable

  const MAX_PENDING: nat := 8
  const U64: nat := 0x1_0000_0000_0000_0000
  const IDLE_SECONDS: int := 1

  /** How writing a member to the PDS ends; a failure may leave anything, or nothing, behind. */
  datatype StowFate =
    | Stowed
    | Refused(residue: Option<seq<byte>>)
    | Abends(code: nat, residue: Option<seq<byte>>)

  /** How giving back an allocation or an enqueue ends. */
  datatype ReleaseFate = Done | Fails | Abended

  /** A reading of the wall clock, which is past the epoch. */
  type Clock = t: int | t > 0 witness 1

  datatype Fate = Fate(
    clock: Clock,
    enqueues: bool,
    allocates: bool,
    unallocates: ReleaseFate,
    dequeues: ReleaseFate,
    stow: StowFate,
    vtoc: Option<Dscb>,
    stores: bool,
    junk: seq<byte>,     // what a scratch file that is not exact holds after a store
    unlinks: bool,
    renames: bool)

  datatype Status = Ok | Enospc | Eio | Eacces | Enoent | Exdev

  datatype OsCall = Unallocate(key: Key) | Dequeue(key: Key)

  /** Abends that mean the dataset is out of space; any other is a program error. */
  predicate Recoverable(code: nat) {
    code == 0xB14 || code == 0xB37 || code == 0xD37 || code == 0xE37
  }

  /** The disk after a failed write left `residue` of a member behind. */
  function Leave(disk: map<Key, seq<byte>>, key: Key, residue: Option<seq<byte>>): map<Key, seq<byte>> {
    match residue
    case Some(bytes) => disk[key := bytes]
    case None => disk - {key}
  }

  /** The size test on a WRITE, whose sum is taken in 64 bits. */
  predicate WithinCap(off: nat, count: nat) {
    (off + count) % U64 <= MAX_MEMBER_BYTES
  }

  /** The test lets exactly those writes past the limit through whose sum wraps to within it. */
  lemma CapWraps(off: nat, count: nat)
    requires off < U64 && count < 0x1_0000_0000
    ensures off + count < U64 ==> (WithinCap(off, count) <==> off + count <= MAX_MEMBER_BYTES)
    ensures WithinCap(off, count) && off + count > MAX_MEMBER_BYTES <==> U64 <= off + count <= U64 + MAX_MEMBER_BYTES
  {
    assert off + count >= U64 ==> (off + count) % U64 == off + count - U64;
  }

  /** Requests that draw before a slot is chosen, and the draws that emptying it takes. */
  function Draws(s: Slot): nat {
    if s.Free? then 0 else if s.dirty then 2 else 1
  }

  // ----- What a call decides, from the state before it ------------------------------------

  /** What call `n` reads of the VTOC. */
  function Vtoc(fate: nat -> Fate, n: nat): Option<Dscb> {
    fate(n).vtoc
  }

  /** Call `n` gets the enqueue and the allocation for `key`. */
  ghost predicate GetsLocks(fate: nat -> Fate, enqs: set<Key>, key: Key, n: nat) {
    key !in enqs && fate(n).enqueues && fate(n).allocates
  }

  /** A new member gets its slot, its enqueue and its allocation, from call `n` on. */
  ghost predicate CanBegin(fate: nat -> Fate, slots: seq<Slot>, enqs: set<Key>, key: Key, n: nat) {
    TheChosen(slots) < |slots| && GetsLocks(fate, enqs, key, n + Draws(slots[TheChosen(slots)]) + 1)
  }

  lemma CanBeginIs(fate: nat -> Fate, slots: seq<Slot>, enqs: set<Key>, key: Key, n: nat, i: nat)
    requires Chosen(slots, i)
    ensures CanBegin(fate, slots, enqs, key, n) == GetsLocks(fate, enqs, key, n + Draws(slots[i]) + 1)
  {
    ChosenOnce(slots, i);
  }

  /** There is room for `flat` in the slot that a member that is not pending gets, from call `n` on. */
  ghost predicate NewRoom(fate: nat -> Fate, slots: seq<Slot>, dcbs: map<string, Dcb>, key: Key, flat: seq<byte>, n: nat) {
    var i := TheChosen(slots);
    i < |slots| && Room(slots, dcbs, i, key.dsname, flat, Vtoc(fate, n + Draws(slots[i]) + 2))
  }

  lemma NewRoomIs(fate: nat -> Fate, slots: seq<Slot>, dcbs: map<string, Dcb>, key: Key, flat: seq<byte>, n: nat,
                  i: nat, after: seq<Slot>)
    requires i == TheChosen(slots) < |slots| == |after| && after == slots[i := after[i]]
    ensures NewRoom(fate, slots, dcbs, key, flat, n)
         == Room(after, dcbs, i, key.dsname, flat, Vtoc(fate, n + Draws(slots[i]) + 2))
  {
    SameRoom(slots, after, dcbs, i, key.dsname, flat, Vtoc(fate, n + Draws(slots[i]) + 2));
  }

  /** From call `n` on, `key` has a slot or gets one, with the room to hold `flat` there. */
  ghost predicate Placeable(fate: nat -> Fate, slots: seq<Slot>, enqs: set<Key>, dcbs: map<string, Dcb>, key: Key,
                            flat: seq<byte>, n: nat)
  {
    if Pending(slots, key) then Room(slots, dcbs, IndexOf(slots, key), key.dsname, flat, Vtoc(fate, n))
    else CanBegin(fate, slots, enqs, key, n) && NewRoom(fate, slots, dcbs, key, flat, n)
  }

  /** The flush that call `n` decides writes the member. */
  ghost predicate Saved(fate: nat -> Fate, marks: seq<FullTable.Mark>, dsname: string, n: nat) {
    !FullTable.Remembers(marks, dsname, fate(n).clock) && fate(n).stow.Stowed?
  }

  /** It fails and gives the member up: the dataset is known to be full, or writing abends. */
  ghost predicate GivenUp(fate: nat -> Fate, marks: seq<FullTable.Mark>, dsname: string, n: nat) {
    FullTable.Remembers(marks, dsname, fate(n).clock) || fate(n).stow.Abends?
  }

  /** Everything that decides what a request does, but for its own argument. */
  datatype State = State(
    slots: seq<Slot>, disk: map<Key, seq<byte>>, marks: seq<FullTable.Mark>, enqs: set<Key>, tick: nat, lost: nat,
    dcbs: map<string, Dcb>, dscb: map<string, Dscb>)
  {
    /** The image that a WRITE of `count` bytes at `off` to `key` starts from. */
    ghost function Base(key: Key, off: nat, count: nat): Image {
      BaseAt(slots, dcbs, key, off, count)
    }

    /** The image that SETATTR of the size of `key` to `n` starts from; only a growth is predicted. */
    ghost function SizeBase(key: Key, n: nat): Image {
      if n > |ImageAt(slots, key).Content()| then Base(key, n, 0) else ImageAt(slots, key)
    }

    /** CREATE of `key` leaves bytes of its scratch file behind the member. */
    ghost predicate Abandons(key: Key) {
      ImageAt(slots, key).Spilled? && ImageAt(slots, key).Content() != []
    }

    /** Cutting `key` to `n` may cost its scratch file its exactness. */
    ghost predicate CutsRagged(key: Key, n: nat) {
      RaggedCut(ImageAt(slots, key), n)
    }

    ghost predicate KnownFull(fate: nat -> Fate, key: Key) {
      FullTable.Remembers(marks, key.dsname, fate(tick).clock)
    }

    /** A refused WRITE to `key` leaves an empty slot behind: the member is not pending, nothing
        stands in the way of beginning it, and its locks can be had. */
    ghost predicate LeavesEmpty(fate: nat -> Fate, key: Key, off: nat, count: nat) {
      && !Pending(slots, key) && off == 0 && WithinCap(off, count)
      && !KnownFull(fate, key) && CanBegin(fate, slots, enqs, key, tick + 1)
    }

    /** A WRITE to `key` is done: it is within the limit, its dataset not known full, it can be stored,
        and the member it makes has a slot or gets one, and the room. */
    ghost predicate Accepts(fate: nat -> Fate, key: Key, data: seq<byte>, off: nat) {
      && WithinCap(off, |data|) && !KnownFull(fate, key) && fate(tick).stores && (Pending(slots, key) || off == 0)
      && Placeable(fate, slots, enqs, dcbs, key, Splice(ImageAt(slots, key).Content(), off, data), tick + 1)
    }

    /** The same for CREATE. */
    ghost predicate Makes(fate: nat -> Fate, key: Key) {
      !KnownFull(fate, key) && Placeable(fate, slots, enqs, dcbs, key, [], tick + 1)
    }

    /** The same for SETATTR of the size. */
    ghost predicate Sizes(fate: nat -> Fate, key: Key, n: nat) {
      && n <= MAX_MEMBER_BYTES
      && if Pending(slots, key) then n <= |ImageAt(slots, key).Content()| || Grows(fate, key, n)
         else if n == 0 then Placeable(fate, slots, enqs, dcbs, key, [], tick + 1)
         else key in disk && |disk[key]| <= n
    }

    ghost predicate Grows(fate: nat -> Fate, key: Key, n: nat) {
      fate(tick).stores && Placeable(fate, slots, enqs, dcbs, key, Resize(ImageAt(slots, key).Content(), n), tick + 1)
    }

    /** The account of `key`, if it is pending, is true. */
    ghost predicate TrueAccount(key: Key) {
      Pending(slots, key) ==> CountedAt(SlotAt(slots, key), dcbs)
    }

    /** A refused CREATE empties the member `key`: it is pending, and its dataset not known full. */
    ghost predicate Empties(fate: nat -> Fate, key: Key) {
      Pending(slots, key) && !KnownFull(fate, key)
    }

    /** Its slot is clean and holds something. */
    ghost predicate CleanBytes(key: Key) {
      Pending(slots, key) && !Dirty(slots, key) && ImageAt(slots, key).Content() != []
    }

    /** COMMIT of `key` goes through: nothing to write, or it gets written. */
    ghost predicate Commits(fate: nat -> Fate, key: Key) {
      Dirty(slots, key) ==> Saved(fate, marks, key.dsname, tick)
    }

    /** COMMIT of `key` fails and leaves its slot clean. */
    ghost predicate Forsakes(fate: nat -> Fate, key: Key) {
      Dirty(slots, key) && GivenUp(fate, marks, key.dsname, tick)
    }

    /** What COMMIT of `key` leaves on disk when it goes through: the pending bytes if they are
        dirty, and otherwise what is there. */
    ghost function Durable(key: Key): Option<seq<byte>> {
      if Dirty(slots, key) then Visible(slots, disk, key) else OnDisk(disk, key)
    }
  }

  class Pool {
    var slots: seq<Slot>
    const full: FullTable.Table
    var fatal: bool

    // The operating system: what this task holds, the members on disk, and the VTOC.
    var enqs: set<Key>                 // members enqueued on
    var allocs: set<Key>               // members allocated
    var leakedAllocs: set<Key>         // ... by an allocation no slot answers for
    var disk: map<Key, seq<byte>>
    var dscb: map<string, Dscb>
    var tick: nat
    var lost: nat                      // flushes that have failed
    const fate: nat -> Fate
    const dcbs: map<string, Dcb>       // datasets with a usable DSCB

    // What could not be given back, and the calls that tried.
    ghost var leakedEnqs: set<Key>
    ghost var released: seq<OsCall>

    constructor (fate: nat -> Fate, dcbs: map<string, Dcb>, disk: map<Key, seq<byte>>)
      ensures Valid() && Settled() && Truthful() && dscb == map[] && fresh(full)
      ensures enqs == {} && allocs == {} && this.disk == disk && this.fate == fate && this.dcbs == dcbs
      ensures lost == 0 && tick == 0 && slots == seq(MAX_PENDING, _ => Free) && full.marks == FullTable.UNUSED
      ensures forall k :: View(k) == OnDisk(disk, k)
    {
      var table := new FullTable.Table();
      full := table;
      slots := [Free, Free, Free, Free, Free, Free, Free, Free];
      fatal, enqs, allocs, this.disk, dscb, tick := false, {}, {}, disk, map[], 0;
      this.fate, this.dcbs := fate, dcbs;
      leakedEnqs, leakedAllocs, released, lost := {}, {}, [], 0;
    }

    /** The resources held are exactly those the slots record, plus what was leaked. */
    ghost predicate Accounted()
      reads `slots, `enqs, `allocs, `leakedEnqs, `leakedAllocs, full
    {
      && |slots| == MAX_PENDING && full.Valid()
      && Accounts(slots, enqs, leakedEnqs, allocs, leakedAllocs)
      && (ReleasesWork() ==> leakedEnqs == {} && leakedAllocs == {})
    }

    /** No attempt to give a resource back ever fails. */
    ghost predicate ReleasesWork() {
      forall n: nat :: fate(n).unallocates.Done? && fate(n).dequeues.Done?
    }

    /** With releases that work, the enqueues and the allocations held between requests are
        exactly those of the members pending. */
    lemma HeldExactly()
      requires Valid() && ReleasesWork()
      ensures enqs == allocs == UsedKeys(slots)
    {
      forall i | 0 <= i < |slots| && slots[i].Used?
        ensures slots[i].enq && slots[i].alloc
      {
        assert OkAt(slots[i]);
      }
      AllHeld(slots);
    }

    /** A used slot holds both resources, a member within the limit, and an estimate for the format
        of its dataset. */
    ghost predicate OkAt(s: Slot) {
      s.Used? ==>
        && s.enq && s.alloc
        && s.image.Valid() && |s.Content()| <= MAX_MEMBER_BYTES
        && (s.key.dsname in dcbs ==> s.account.est.dcb == dcbs[s.key.dsname])
    }

    ghost predicate AllOk(slots: seq<Slot>) {
      forall i | 0 <= i < |slots| :: OkAt(slots[i])
    }

    /** Setting one slot keeps the others as they should be. */
    lemma SetOk(slots: seq<Slot>, i: nat, s: Slot)
      requires AllOk(slots) && i < |slots| && OkAt(s)
      ensures AllOk(slots[i := s])
    {
    }

    /** What holds between any two requests. */
    ghost predicate Valid()
      reads `slots, `enqs, `allocs, `leakedEnqs, `leakedAllocs, `lost, full
    {
      Accounted() && AllOk(slots) && NoneLost()
    }

    /** Writing a member to the PDS never fails. */
    ghost predicate StowsWork() {
      forall n: nat :: fate(n).stow.Stowed?
    }

    /** If writing never fails, no flush has failed; if it never abends, no dataset is remembered
        as full. */
    ghost predicate NoneLost()
      reads `lost, full
    {
      && (StowsWork() ==> lost == 0)
      && (NoAbends() ==> full.Empty())
    }

    /** Writing a member to the PDS never abends. */
    ghost predicate NoAbends() {
      forall n: nat :: !fate(n).stow.Abends?
    }

    ghost function View(key: Key): Option<seq<byte>>
      reads `slots, `disk
    {
      Visible(slots, disk, key)
    }

    function Now(): State
      reads `slots, `disk, `enqs, `tick, `lost, `dscb, full
    {
      State(slots, disk, full.marks, enqs, tick, lost, dcbs, dscb)
    }

    /** Every account is true to its member. */
    ghost predicate Truthful()
      reads `slots
    {
      AllCounted(slots, dcbs)
    }

    /** A pending member that is not dirty is on disk as it is. */
    ghost predicate SettledAt(i: nat)
      requires i < |slots|
      reads `slots, `disk
    {
      TrueSlot(slots[i], disk)
    }

    ghost predicate Settled()
      reads `slots, `disk
    {
      forall i | 0 <= i < |slots| :: SettledAt(i)
    }

    method Draw() returns (f: Fate)
      modifies this`tick
      ensures f == fate(old(tick)) && tick == old(tick) + 1
    {
      f := fate(tick);
      tick := tick + 1;
    }

    method Find(key: Key) returns (i: int)
      requires Accounted()
      ensures -1 <= i < MAX_PENDING
      ensures i >= 0 <==> Pending(slots, key)
      ensures i >= 0 ==> Holds(slots[i], key)
    {
      for j := 0 to MAX_PENDING
        invariant forall k | 0 <= k < j :: !Holds(slots[k], key)
      {
        if Holds(slots[j], key) {
          return j;
        }
      }
      return -1;
    }

    /** The exclusive SPFEDIT enqueue: refused at once when anyone, this task included, has it. */
    method Enqueue(i: nat, f: Fate) returns (ok: bool)
      requires Accounted() && i < MAX_PENDING && slots[i].Used? && !slots[i].enq
      modifies this`slots, this`enqs
      ensures Accounted()
      ensures ok == (old(slots)[i].key !in old(enqs) && f.enqueues)
      ensures slots == old(slots)[i := old(slots)[i].(enq := ok)]
    {
      var key := slots[i].key;
      ok := key !in enqs && f.enqueues;
      if ok {
        TakeEnq(slots, i, enqs, leakedEnqs, allocs, leakedAllocs);
        slots, enqs := slots[i := slots[i].(enq := true)], enqs + {key};
      }
    }

    /** Dequeue, when the slot holds the enqueue. The flag is cleared whatever happens. */
    method GiveBackEnqueue(i: nat, n: nat)
      requires Accounted() && i < MAX_PENDING && slots[i].Used?
      modifies this`slots, this`enqs, this`leakedEnqs, this`released, this`fatal
      ensures Accounted()
      ensures slots == old(slots)[i := old(slots)[i].(enq := false)]
      ensures released == old(released) + if old(slots)[i].enq then [Dequeue(slots[i].key)] else []
      ensures fatal == (old(fatal) || (old(slots)[i].enq && fate(n).dequeues.Abended?))
      ensures enqs == old(enqs) || enqs == old(enqs) - {slots[i].key}
    {
      if slots[i].enq {
        var key := slots[i].key;
        DropEnq(slots, i, enqs, leakedEnqs, allocs, leakedAllocs);
        slots, released := slots[i := slots[i].(enq := false)], released + [Dequeue(key)];
        fatal := fatal || fate(n).dequeues.Abended?;
        enqs := if fate(n).dequeues.Done? then enqs - {key} else enqs;
        leakedEnqs := if fate(n).dequeues.Done? then leakedEnqs else leakedEnqs + {key};
      }
    }

    method Allocate(i: nat, f: Fate) returns (ok: bool)
      requires Accounted() && i < MAX_PENDING && slots[i].Used? && !slots[i].alloc
      modifies this`slots, this`allocs
      ensures Accounted() && ok == f.allocates
      ensures slots == old(slots)[i := old(slots)[i].(alloc := ok)]
    {
      ok := f.allocates;
      if ok {
        TakeAlloc(slots, i, enqs, leakedEnqs, allocs, leakedAllocs);
        allocs := allocs + {slots[i].key};
        slots := slots[i := slots[i].(alloc := true)];
      }
    }

    /** Unallocate, when the slot holds the allocation. The flag is cleared whatever happens. */
    method GiveBackAllocation(i: nat, n: nat)
      requires Accounted() && i < MAX_PENDING && slots[i].Used?
      modifies this`slots, this`allocs, this`leakedAllocs, this`released, this`fatal
      ensures Accounted()
      ensures slots == old(slots)[i := old(slots)[i].(alloc := false)]
      ensures released == old(released) + if old(slots)[i].alloc then [Unallocate(slots[i].key)] else []
      ensures fatal == (old(fatal) || (old(slots)[i].alloc && fate(n).unallocates.Abended?))
    {
      if slots[i].alloc {
        var key := slots[i].key;
        DropAlloc(slots, i, enqs, leakedEnqs, allocs, leakedAllocs);
        slots, released := slots[i := slots[i].(alloc := false)], released + [Unallocate(key)];
        fatal := fatal || fate(n).unallocates.Abended?;
        allocs := if fate(n).unallocates.Done? then allocs - ({key} - leakedAllocs) else allocs;
        leakedAllocs := if fate(n).unallocates.Done? then leakedAllocs else leakedAllocs + {key};
      }
    }

    /** Take the SPFEDIT enqueue, then the allocation; both or neither. */
    method Lock(i: nat) returns (status: Status)
      requires Accounted() && i < MAX_PENDING && slots[i].Used? && !slots[i].enq && !slots[i].alloc
      modifies this`slots, this`enqs, this`allocs, this`tick, this`leakedEnqs, this`released, this`fatal
      ensures Accounted()
      ensures status.Ok? == old(GetsLocks(fate, enqs, slots[i].key, tick)) && tick == old(tick) + 1
      ensures !status.Ok? ==> slots == old(slots)
      ensures status.Ok? ==> slots == old(slots)[i := old(slots)[i].(enq := true, alloc := true)]
    {
      var n := tick;
      var f := Draw();
      var ok := Enqueue(i, f);
      if !ok {
        return Eacces;
      }
      ok := Allocate(i, f);
      if !ok {
        GiveBackEnqueue(i, n);
        return Eio;
      }
      return Ok;
    }

    /** Give everything back and free the slot: unallocate, then dequeue, each attempted
        whatever became of the other; an abend asks for shutdown. */
    method Release(i: nat)
      requires Accounted() && i < MAX_PENDING && slots[i].Used?
      modifies this`slots, this`enqs, this`allocs, this`tick, this`fatal, this`leakedEnqs, this`leakedAllocs, this`released
      ensures Accounted() && slots == old(slots)[i := Free]
      ensures released == old(released)
                + (if old(slots)[i].alloc then [Unallocate(old(slots)[i].key)] else [])
                + (if old(slots)[i].enq then [Dequeue(old(slots)[i].key)] else [])
      ensures (old(fatal) ==> fatal) && tick == old(tick) + 1
      ensures enqs == old(enqs) || enqs == old(enqs) - {old(slots)[i].key}
    {
      var n := tick;
      var _ := Draw();
      GiveBackAllocation(i, n);
      GiveBackEnqueue(i, n);
      FreeIdleKeys(slots, i);
      slots := slots[i := Free];
    }

    /** The disk after the flush that call `n` decides. */
    ghost function Written(key: Key, content: seq<byte>, n: nat): map<Key, seq<byte>>
      reads `disk, full
    {
      if full.Known(key.dsname, fate(n).clock) then disk
      else
        match fate(n).stow
        case Stowed => disk[key := content]
        case Refused(residue) => Leave(disk, key, residue)
        case Abends(_, residue) => Leave(disk, key, residue)
    }

    /** The flush's effect on everything but the slot: `done` that the member is stowed, `retry`
        that nothing conclusive happened and the slot should stay dirty. */
    method Stow(key: Key, content: seq<byte>) returns (done: bool, retry: bool)
      requires full.Valid() && NoneLost()
      modifies this`disk, this`fatal, this`tick, this`lost, full
      ensures full.Valid() && NoneLost() && tick == old(tick) + 1
      ensures done == old(Saved(fate, full.marks, key.dsname, tick)) && (retry <==> !done && !old(GivenUp(fate, full.marks, key.dsname, tick)))
      ensures disk == old(Written(key, content, tick))
      ensures lost == old(lost) + if done then 0 else 1
    {
      var f := Draw();
      done, retry := false, false;
      var isFull := full.IsFull(key.dsname, f.clock);
      if !isFull {
        match f.stow {
          case Stowed =>
            disk, done := disk[key := content], true;
            full.ClearFull(key.dsname);
          case Refused(residue) =>
            disk, retry := Leave(disk, key, residue), true;
          case Abends(code, residue) =>
            disk := Leave(disk, key, residue);
            if Recoverable(code) {
              full.MarkFull(key.dsname, f.clock);
            } else {
              fatal := true;
            }
        }
      }
      lost := lost + if done then 0 else 1;
    }

    /** Write a dirty member to the PDS. A clean slot is never written. A flush that fails leaves
        the slot dirty, to be tried again, unless it gives up; then the slot is clean, and that is
        untrue unless the disk happens to hold the same bytes. */
    method FlushSlot(i: nat) returns (ok: bool)
      requires Valid() && i < MAX_PENDING && slots[i].Used? && slots[i].dirty
      modifies this`slots, this`disk, this`fatal, this`tick, this`lost, full
      ensures Valid() && slots[i].Used? && tick == old(tick) + 1
      ensures slots == old(slots)[i := old(slots)[i].(dirty := slots[i].dirty, image := slots[i].image)]
      ensures slots[i].Content() == old(slots)[i].Content()
      ensures Sound(old(slots)[i].image) ==> Sound(slots[i].image)
      ensures forall k :: View(k) == old(View(k))
      ensures old(Truthful()) ==> Truthful()
      ensures disk == old(Written(slots[i].key, slots[i].Content(), tick))
      ensures ok == old(Saved(fate, full.marks, slots[i].key.dsname, tick))
      ensures slots[i].dirty <==> !ok && !old(GivenUp(fate, full.marks, slots[i].key.dsname, tick))
      ensures ok ==> OnDisk(disk, slots[i].key) == Some(slots[i].Content())
      ensures forall k | k != slots[i].key :: OnDisk(disk, k) == old(OnDisk(disk, k))
      ensures forall j | 0 <= j < MAX_PENDING && j != i :: old(SettledAt(j)) ==> SettledAt(j)
      ensures lost == old(lost) + if ok then 0 else 1
    {
      var s := slots[i];
      VisibleAt(slots, disk, i);
      var retry;
      ok, retry := Stow(s.key, s.Content());
      OthersSettled(old(disk), i);
      assert OkAt(s);
      var after := s.(dirty := retry, image := if ok then Read(s.image, |s.Content()|) else s.image);
      SameCounted(s, after);
      SetCounted(slots, dcbs, i, after);
      SetSlot(i, after);
    }

    /** Truth of an account is a matter of the account and the content. */
    lemma SameCounted(s: Slot, t: Slot)
      requires s.Used? && t.Used? && s.key == t.key && s.account == t.account && s.Content() == t.Content()
      ensures CountedAt(s, dcbs) ==> CountedAt(t, dcbs)
    {
      if CountedAt(s, dcbs) && s.key.dsname in dcbs {
        var stream :| Tracks(s.account, dcbs[s.key.dsname], s.Content(), stream);
        assert Tracks(t.account, dcbs[s.key.dsname], t.Content(), stream);
      }
    }

    /** A change on disk of the member in slot `i` leaves the other slots settled. */
    lemma OthersSettled(was: map<Key, seq<byte>>, i: nat)
      requires Distinct(slots) && i < |slots| && slots[i].Used?
      requires forall k | k != slots[i].key :: OnDisk(disk, k) == OnDisk(was, k)
      ensures forall j | 0 <= j < |slots| && j != i && slots[j].Used? :: OnDisk(disk, slots[j].key) == OnDisk(was, slots[j].key)
    {
      assert forall j | 0 <= j < |slots| && j != i && slots[j].Used? :: slots[j].key != slots[i].key;
    }

    /** Replace a slot by one with the same key and the same resources. */
    method SetSlot(i: nat, s: Slot)
      requires Valid() && i < MAX_PENDING && slots[i].Used? && s.Used? && OkAt(s)
      requires s.key == slots[i].key
      modifies this`slots
      ensures Valid() && slots == old(slots)[i := s]
      ensures forall k | k != s.key :: View(k) == old(View(k))
      ensures View(s.key) == Some(s.Content())
      ensures old(View(s.key)) == Some(old(slots)[i].Content())
      ensures forall j | 0 <= j < MAX_PENDING && j != i :: old(SettledAt(j)) ==> SettledAt(j)
    {
      assert OkAt(slots[i]);
      KeyFlags(slots, i);
      SetKeys(slots, i, s);
      SetOk(slots, i, s);
      VisibleAt(slots, disk, i);
      VisibleAt(slots[i := s], disk, i);
      forall k | k != s.key
        ensures Visible(slots[i := s], disk, k) == Visible(slots, disk, k)
      {
        ReplaceElsewhere(slots, i, s, k);
      }
      slots := slots[i := s];
    }

    /** Release, as a client sees it: the member falls back to what is on disk. */
    method Drop(i: nat)
      requires Valid() && i < MAX_PENDING && slots[i].Used?
      modifies this`slots, this`enqs, this`allocs, this`tick, this`fatal, this`leakedEnqs, this`leakedAllocs, this`released
      ensures Valid() && slots == old(slots)[i := Free]
      ensures forall k | k != old(slots)[i].key :: View(k) == old(View(k))
      ensures View(old(slots)[i].key) == OnDisk(disk, old(slots)[i].key) && !Pending(slots, old(slots)[i].key)
      ensures released == old(released) + [Unallocate(old(slots)[i].key), Dequeue(old(slots)[i].key)]
      ensures forall j | 0 <= j < MAX_PENDING :: (j == i || old(SettledAt(j))) ==> SettledAt(j)
      ensures tick == old(tick) + 1 && (old(Truthful()) ==> Truthful())
      ensures enqs == old(enqs) || enqs == old(enqs) - {old(slots)[i].key}
    {
      SetCounted(slots, dcbs, i, Free);
      assert OkAt(slots[i]);
      FreeKeys(slots, i);
      SetOk(slots, i, Free);
      forall k | k != slots[i].key
        ensures Visible(slots[i := Free], disk, k) == Visible(slots, disk, k)
      {
        ReplaceElsewhere(slots, i, Free, k);
      }
      Release(i);
    }

    /** Flush a slot if it is dirty, and release it whether or not that worked. */
    method Retire(i: nat)
      requires Valid() && i < MAX_PENDING && slots[i].Used?
      modifies this`slots, this`enqs, this`allocs, this`tick, this`fatal, this`leakedEnqs, this`leakedAllocs, this`released, this`disk, this`lost, full
      ensures Valid() && slots == old(slots)[i := Free] && lost >= old(lost)
      ensures tick == old(tick) + Draws(old(slots)[i]) && (old(Truthful()) ==> Truthful())
      ensures enqs == old(enqs) || enqs == old(enqs) - {old(slots)[i].key}
      ensures forall k | k != old(slots)[i].key :: View(k) == old(View(k)) && OnDisk(disk, k) == old(OnDisk(disk, k))
      ensures forall j | 0 <= j < MAX_PENDING :: (j == i || old(SettledAt(j))) ==> SettledAt(j)
      ensures old(SettledAt(i)) && lost == old(lost) ==> forall k :: View(k) == old(View(k))
    {
      VisibleAt(slots, disk, i);
      ghost var s, settled := slots[i], SettledAt(i);
      if slots[i].dirty {
        var ok := FlushSlot(i);
      }
      Overwritten(old(slots), i, slots[i], Free);
      Drop(i);
      assert lost == old(lost) && settled ==> OnDisk(disk, s.key) == Some(s.Content());
    }

    /** Claim a slot: a free one if there is one, else the least recently written is retired. */
    method Take() returns (i: nat)
      requires Valid()
      modifies this`slots, this`enqs, this`allocs, this`tick, this`fatal, this`leakedEnqs, this`leakedAllocs, this`released, this`disk, this`lost, full
      ensures Valid() && i < MAX_PENDING && slots[i].Free? && slots == old(slots)[i := Free]
      ensures Chosen(old(slots), i) && tick == old(tick) + Draws(old(slots)[i]) && (old(Truthful()) ==> Truthful())
      ensures lost >= old(lost) && forall k | !old(Pending(slots, k)) :: k in enqs <==> k in old(enqs)
      ensures forall k | !old(Pending(slots, k)) :: View(k) == old(View(k)) && OnDisk(disk, k) == old(OnDisk(disk, k))
      ensures forall j | 0 <= j < MAX_PENDING :: old(SettledAt(j)) ==> SettledAt(j)
      ensures old(Settled()) && lost == old(lost) ==> forall k :: View(k) == old(View(k))
    {
      for j := 0 to MAX_PENDING
        invariant forall k | 0 <= k < j :: slots[k].Used?
      {
        if slots[j].Free? {
          return j;
        }
      }
      i := 0;
      for j := 1 to MAX_PENDING
        invariant i < j && forall k | 0 <= k < j :: slots[i].lastWrite <= slots[k].lastWrite
        invariant forall k | 0 <= k < i :: slots[i].lastWrite < slots[k].lastWrite
      {
        if slots[j].lastWrite < slots[i].lastWrite {
          i := j;
        }
      }
      assert Holds(slots[i], slots[i].key);
      Retire(i);
    }

    /** An account for a member that holds nothing yet. */
    function Blank(key: Key): Account {
      if key.dsname in dcbs then Folded(dcbs[key.dsname], []) else Account(Init(Dcb(F, 0, 0)), 0)
    }

    method Occupy(i: nat, s: Slot)
      requires Accounted() && i < MAX_PENDING && slots[i].Free? && s.Used? && !s.enq && !s.alloc && !Pending(slots, s.key)
      modifies this`slots
      ensures Accounted() && slots == old(slots)[i := s]
    {
      SetKeys(slots, i, s);
      slots := slots[i := s];
    }

    /** Initialise a free slot for `key` and lock it; a slot that cannot be locked is freed again. */
    method Begin(i: nat, key: Key) returns (status: Status)
      requires Valid() && i < MAX_PENDING && slots[i].Free? && !Pending(slots, key)
      modifies this`slots, this`enqs, this`allocs, this`tick, this`fatal, this`leakedEnqs, this`leakedAllocs, this`released
      ensures Valid() && status.Ok? == old(GetsLocks(fate, enqs, key, tick + 1)) && (status.Ok? ==> tick == old(tick) + 2)
      ensures !status.Ok? ==> slots == old(slots)
      ensures status.Ok? ==> exists now :: slots == old(slots)[i := Fresh(key, now)]
      ensures old(Truthful()) ==> Truthful()
    {
      var f := Draw();
      var s := Used(key, EMPTY, Blank(key), false, f.clock, false, false);
      Occupy(i, s);
      status := Lock(i);
      if status.Ok? {
        Overwritten(old(slots), i, s, Fresh(key, f.clock));
      } else {
        Release(i);
        Overwritten(old(slots), i, s, Free);
        assert old(slots)[i := Free] == old(slots);
      }
      FreshOk(key, f.clock);
      SetOk(old(slots), i, slots[i]);
      SetCounted(old(slots), dcbs, i, Fresh(key, f.clock));
    }

    /** A slot for a member that holds nothing yet. */
    function Fresh(key: Key, now: int): (s: Slot)
      ensures Holds(s, key)
    {
      Used(key, EMPTY, Blank(key), false, now, true, true)
    }

    lemma FreshOk(key: Key, now: int)
      ensures OkAt(Fresh(key, now)) && CountedAt(Fresh(key, now), dcbs) && OkAt(Free)
    {
      if key.dsname in dcbs {
        assert Tracks(Blank(key), dcbs[key.dsname], Fresh(key, now).Content(), []);
      }
    }

    /** Begin `key` in the free slot `i`, as a client sees it. */
    method BeginSeen(i: nat, key: Key) returns (status: Status)
      requires Valid() && i < MAX_PENDING && slots[i].Free? && !Pending(slots, key)
      modifies this`slots, this`enqs, this`allocs, this`tick, this`fatal, this`leakedEnqs, this`leakedAllocs, this`released
      ensures Valid() && status.Ok? == old(GetsLocks(fate, enqs, key, tick + 1)) && (status.Ok? ==> tick == old(tick) + 2)
      ensures slots == old(slots)[i := slots[i]] && (!status.Ok? ==> slots == old(slots))
      ensures status.Ok? ==> Holds(slots[i], key) && slots[i].image == EMPTY && !slots[i].dirty && View(key) == Some([])
      ensures status.Ok? ==> slots[i].account == Blank(key) && CountedAt(slots[i], dcbs)
      ensures old(Truthful()) ==> Truthful()
      ensures forall k | k != key || !status.Ok? :: View(k) == old(View(k))
      ensures forall j | 0 <= j < MAX_PENDING && (j != i || !status.Ok?) :: old(SettledAt(j)) ==> SettledAt(j)
    {
      status := Begin(i, key);
      if status.Ok? {
        VisibleAt(slots, disk, i);
        FreshOk(key, slots[i].lastWrite);
        forall k | k != key
          ensures Visible(slots, disk, k) == Visible(old(slots), disk, k)
        {
          ReplaceElsewhere(old(slots), i, slots[i], k);
        }
      }
    }

    /** Begin a pending member that is not pending yet: empty, clean, and holding its enqueue and
        allocation. When either is refused, nothing is held for it. */
    method SlotNew(key: Key) returns (status: Status, i: nat)
      requires Valid() && !Pending(slots, key)
      modifies this, full
      ensures Valid() && i < MAX_PENDING && lost >= old(lost)
      ensures status.Ok? == old(CanBegin(fate, slots, enqs, key, tick)) && i == TheChosen(old(slots))
      ensures status.Ok? ==> tick == old(tick) + Draws(old(slots)[i]) + 2 && CountedAt(slots[i], dcbs)
      ensures old(Truthful()) ==> Truthful()
      ensures !status.Ok? ==> !Pending(slots, key)
      ensures slots == old(slots)[i := slots[i]] && (!status.Ok? ==> slots[i].Free?)
      ensures OnDisk(disk, key) == old(OnDisk(disk, key))
      ensures status.Ok? ==> Holds(slots[i], key) && slots[i].image == EMPTY && !slots[i].dirty && View(key) == Some([])
      ensures forall k | !old(Pending(slots, k)) && (k != key || !status.Ok?) :: View(k) == old(View(k))
      ensures old(Settled()) ==> forall j | 0 <= j < MAX_PENDING && (j != i || !status.Ok?) :: SettledAt(j)
      ensures old(Settled()) && lost == old(lost) ==> forall k | k != key || !status.Ok? :: View(k) == old(View(k))
    {
      i := TakeFor(key);
      status := BeginSeen(i, key);
    }

    /** Claim a slot for `key`. */
    method TakeFor(key: Key) returns (i: nat)
      requires Valid() && !Pending(slots, key)
      modifies this, full
      ensures Valid() && i < MAX_PENDING && slots == old(slots)[i := Free] && !Pending(slots, key) && lost >= old(lost)
      ensures GetsLocks(fate, enqs, key, tick + 1) == old(CanBegin(fate, slots, enqs, key, tick))
      ensures i == TheChosen(old(slots)) && tick == old(tick) + Draws(old(slots)[i])
      ensures old(Truthful()) ==> Truthful()
      ensures forall k | !old(Pending(slots, k)) :: View(k) == old(View(k)) && OnDisk(disk, k) == old(OnDisk(disk, k))
      ensures old(Settled()) ==> Settled()
      ensures old(Settled()) && lost == old(lost) ==> forall k :: View(k) == old(View(k))
    {
      i := Take();
      CanBeginIs(fate, old(slots), old(enqs), key, old(tick), i);
      ChosenOnce(old(slots), i);
    }

    /** Everything pending for the dataset of `key` fits it, if every account of it is true. */
    ghost predicate SpaceHolds(key: Key)
      reads `slots, `dscb
    {
      SpaceFor(slots, dcbs, dscb, key)
    }

    /** The needs of slot `i` and then of every other slot of its dataset chain through. */
    ghost predicate Chained(i: nat, own: Estimate)
      requires i < |slots| && slots[i].Used?
      reads `slots, `dscb
    {
      var dsname := slots[i].key.dsname;
      dsname in dscb && Chain(dscb[dsname], EndOf(dscb[dsname]), AdmitNeeds(slots, i, dsname, own, |slots|))
    }

    /** An account of slot `i` that was admitted for the content `flat`; `known` is whether it is
        sure to be the fold of it. */
    ghost predicate Admitted(i: nat, account: Account, flat: seq<byte>, known: bool)
      requires i < |slots| && slots[i].Used?
      reads `slots, `dscb
    {
      var dsname := slots[i].key.dsname;
      dsname in dcbs ==>
        && account.est.dcb == dcbs[dsname] && Chained(i, account.est)
        && (known ==> account == Folded(dcbs[dsname], flat))
    }

    /** The prediction reads what it has to of the member in slot `i`; the member is the same. */
    method Reread(i: nat, off: nat, count: nat)
      requires Valid() && i < MAX_PENDING && slots[i].Used?
      modifies this`slots
      ensures Valid() && Holds(slots[i], old(slots)[i].key) && slots == old(slots)[i := slots[i]]
      ensures slots[i] == old(slots)[i].(image := slots[i].image) && slots[i].Content() == old(slots)[i].Content()
      ensures old(slots)[i].key.dsname in dcbs ==> slots[i].image == Prepared(dcbs, old(slots)[i], off, count)
      ensures forall k :: View(k) == old(View(k))
      ensures forall j | 0 <= j < MAX_PENDING :: old(SettledAt(j)) ==> SettledAt(j)
    {
      var s := slots[i];
      assert OkAt(s);
      if Rereads(|s.Content()|, s.account.consumed, off, count) {
        Fetch(i, 1);
      }
    }

    /** Read `len` bytes of the member in slot `i`. */
    method Fetch(i: nat, len: nat)
      requires Valid() && i < MAX_PENDING && slots[i].Used?
      modifies this`slots
      ensures Valid() && slots == old(slots)[i := old(slots)[i].(image := Read(old(slots)[i].image, len))]
      ensures old(Truthful()) ==> Truthful()
      ensures forall k :: View(k) == old(View(k))
      ensures forall j | 0 <= j < MAX_PENDING :: old(SettledAt(j)) ==> SettledAt(j)
    {
      var s := slots[i];
      assert OkAt(s);
      var after := s.(image := Read(s.image, len));
      SameCounted(s, after);
      SetCounted(slots, dcbs, i, after);
      SetSlot(i, after);
    }

    /** Predict whether the member after this write, and every other member pending for the
        dataset, still fit; only then is the new account adopted. It is the fold of the content
        that the write should give, if the old account was true or the write is no append. A
        dataset without a usable DSCB is not predicted. */
    method Admit(i: nat, data: seq<byte>, off: nat) returns (status: Status, account: Account)
      requires Valid() && i < MAX_PENDING && slots[i].Used?
      modifies this`tick, this`dscb, this`slots
      ensures Valid() && Holds(slots[i], old(slots)[i].key) && slots == old(slots)[i := slots[i]]
      ensures slots[i] == old(slots)[i].(image := slots[i].image) && slots[i].Content() == old(slots)[i].Content()
      ensures slots[i].image == old(slots)[i].image || slots[i].image == Prepared(dcbs, old(slots)[i], off, |data|)
      ensures status.Ok? ==> slots[i].image == Prepared(dcbs, old(slots)[i], off, |data|)
      ensures forall k :: View(k) == old(View(k))
      ensures forall j | 0 <= j < MAX_PENDING :: old(SettledAt(j)) ==> SettledAt(j)
      ensures status.Ok? <==> (slots[i].key.dsname in dcbs ==> Passes(old(slots), i, slots[i].key.dsname, account.est, Vtoc(fate, old(tick))))
      ensures Vtoc(fate, old(tick)).Some? ==> TrialFor(old(slots)[i], data, off, account)
      ensures status.Ok? ==>
                Admitted(i, account, Splice(slots[i].Content(), off, data),
                         old(CountedAt(slots[i], dcbs)) || off != |slots[i].Content()|)
    {
      var s := slots[i];
      account := s.account;
      assert OkAt(s);
      if s.key.dsname !in dcbs {
        return Ok, account;
      }
      var f := Draw();
      if f.vtoc.None? {
        return Eio, account;
      }
      Reread(i, off, |data|);
      SameOthers(old(slots), slots, i, s.key.dsname, MAX_PENDING);
      SameCounted(s, slots[i]);
      SameCounted(slots[i], s);
      status, account := Predict(i, data, off, f.vtoc.value);
    }

    /** The prediction, with the VTOC entry at hand. */
    method Predict(i: nat, data: seq<byte>, off: nat, ds: Dscb) returns (status: Status, account: Account)
      requires Valid() && i < MAX_PENDING && slots[i].Used? && slots[i].key.dsname in dcbs
      modifies this`dscb
      ensures Valid() && (status.Ok? <==> Passes(slots, i, slots[i].key.dsname, account.est, Some(ds)))
      ensures TrialFor(slots[i], data, off, account)
      ensures status.Ok? ==>
                Admitted(i, account, Splice(slots[i].Content(), off, data),
                         CountedAt(slots[i], dcbs) || off != |slots[i].Content()|)
    {
      assert OkAt(slots[i]);
      dscb := dscb[slots[i].key.dsname := ds];
      account := Trial(slots[i], data, off);
      var ok := FitTogether(slots, i, slots[i].key.dsname, account.est, ds);
      status := if ok then Ok else Enospc;
    }

    /** An account for the member of slot `s` after a write: the fold of its content then, if the old
        account is true or the write is no append. */
    ghost predicate TrialFor(s: Slot, data: seq<byte>, off: nat, account: Account)
      requires s.Used?
    {
      s.key.dsname in dcbs && (CountedAt(s, dcbs) || off != |s.Content()|) ==>
        account == Folded(dcbs[s.key.dsname], Splice(s.Content(), off, data))
    }

    /** The account for the content after a write. */
    method Trial(s: Slot, data: seq<byte>, off: nat) returns (account: Account)
      requires OkAt(s) && s.Used? && s.key.dsname in dcbs
      ensures account.est.dcb == dcbs[s.key.dsname] && TrialFor(s, data, off, account)
    {
      ghost var dcb, stream := dcbs[s.key.dsname], [];
      if CountedAt(s, dcbs) {
        stream :| Tracks(s.account, dcb, s.Content(), stream);
      }
      account := BuildTrial(s.account, s.Content(), data, off, dcb, stream);
    }

    /** Adopt an admitted account together with the image that was stored, and owe a flush. The
        account is true if it was for the content that was stored. */
    method Adopt(i: nat, image: Image, account: Account, now: int, ghost flat: seq<byte>, ghost known: bool)
      requires Valid() && i < MAX_PENDING && slots[i].Used?
      requires image.Valid() && |image.Content()| <= MAX_MEMBER_BYTES && Admitted(i, account, flat, known)
      modifies this`slots
      ensures Valid()
      ensures slots == old(slots)[i := old(slots)[i].(image := image, account := account, dirty := true, lastWrite := now)]
      ensures known && image.Content() == flat ==> CountedAt(slots[i], dcbs)
      ensures View(slots[i].key) == Some(image.Content())
      ensures forall k | k != slots[i].key :: View(k) == old(View(k))
      ensures forall j | 0 <= j < MAX_PENDING :: (j == i || old(SettledAt(j))) ==> SettledAt(j)
      ensures SpaceHolds(slots[i].key)
    {
      assert OkAt(slots[i]);
      SetSlot(i, slots[i].(image := image, account := account, dirty := true, lastWrite := now));
      SameOthers(old(slots), slots, i, slots[i].key.dsname, MAX_PENDING);
      SpaceFromChain(i);
      assert slots[i].key.dsname in dcbs && known && image.Content() == flat ==>
          Tracks(slots[i].account, dcbs[slots[i].key.dsname], slots[i].Content(), flat);
    }

    lemma SpaceFromChain(i: nat)
      requires Valid() && i < MAX_PENDING && slots[i].Used?
      requires slots[i].key.dsname in dcbs ==> Chained(i, slots[i].account.est)
      ensures SpaceHolds(slots[i].key)
    {
      var dsname := slots[i].key.dsname;
      if dsname in dcbs && dcbs[dsname].Usable() && CountedFor(slots, dsname, dcbs[dsname]) {
        var ds := dscb[dsname];
        forall j | 0 <= j < |slots| && Holds(slots[j], slots[i].key)
          ensures InSpace(slots, j, dcbs[dsname], ds)
        {
          assert j == i;
          if Sane(ds) && StaysInside(ds, EndOf(ds), AdmitNeeds(slots, i, dsname, slots[i].account.est, |slots|)) {
            ChainHoldsFootprint(slots, i, dsname, dcbs[dsname], ds);
          }
        }
      }
    }

    /** An admitted write whose bytes could not be stored: only the account has moved on. */
    method NoteFailedStore(i: nat, account: Account)
      requires Valid() && i < MAX_PENDING && slots[i].Used?
      requires slots[i].key.dsname in dcbs ==> account.est.dcb == dcbs[slots[i].key.dsname]
      modifies this`slots
      ensures Valid()
      ensures slots == old(slots)[i := old(slots)[i].(account := account)]
      ensures forall k :: View(k) == old(View(k))
      ensures forall j | 0 <= j < MAX_PENDING :: old(SettledAt(j)) ==> SettledAt(j)
    {
      assert OkAt(slots[i]);
      SetSlot(i, slots[i].(account := account));
    }

    /** What a change makes of an image: `data` stored at `off`, or the size `off`. */
    function Changed(img: Image, data: seq<byte>, off: nat, resize: bool, junk: seq<byte>): Image {
      if resize then SetSize(img, off, junk) else Store(img, off, data, junk)
    }

    /** A store or a growth keeps an image sound. */
    lemma ChangedSound(s: Slot, data: seq<byte>, off: nat, resize: bool, junk: seq<byte>)
      requires s.Used? && s.image.Valid() && (resize ==> off > |s.Content()|)
      ensures Sound(s.image) ==> Sound(Prepared(dcbs, s, off, |data|))
      ensures Sound(s.image) ==> Sound(Changed(Prepared(dcbs, s, off, |data|), data, off, resize, junk))
    {
      if Sound(s.image) {
        SoundStays(Prepared(dcbs, s, off, |data|), off, data, off, junk);
      }
    }

    /** It gives the flat-file bytes where the image it starts from says so. */
    lemma ChangedExactly(s: Slot, data: seq<byte>, off: nat, junk: seq<byte>)
      requires s.Used? && s.image.Valid()
      ensures var img := Prepared(dcbs, s, off, |data|);
        StoresExactly(img, off, data) ==> Store(img, off, data, junk).Content() == Splice(s.Content(), off, data)
    {
      var img := Prepared(dcbs, s, off, |data|);
      if StoresExactly(img, off, data) {
        ExactStore(img, off, data, junk);
      }
    }

    /** There is room for the content of slot `i` after a write. */
    ghost predicate RoomAfter(slots: seq<Slot>, i: nat, data: seq<byte>, off: nat, vtoc: Option<Dscb>)
      requires i < |slots| && slots[i].Used?
    {
      Room(slots, dcbs, i, slots[i].key.dsname, Splice(slots[i].Content(), off, data), vtoc)
    }

    /** A change of slot `i` that stores `data` at `off`, or grows it to size `off`: admitted, then
        stored if the system lets it. Its account stays true if it was, or is rebuilt, and what
        was stored is what should have been. */
    method Change(i: nat, data: seq<byte>, off: nat, resize: bool, f: Fate) returns (status: Status)
      requires Valid() && i < MAX_PENDING && slots[i].Used? && off + |data| <= MAX_MEMBER_BYTES
      requires resize ==> data == [] && off > |slots[i].Content()|
      modifies this`slots, this`tick, this`dscb
      ensures Valid() && Holds(slots[i], old(slots)[i].key) && slots == old(slots)[i := slots[i]]
      ensures View(slots[i].key) == Some(slots[i].Content())
      ensures status.Ok? ==> f.stores && slots[i].dirty && SpaceHolds(slots[i].key)
      ensures status.Ok? ==> slots[i].image == Changed(Prepared(dcbs, old(slots)[i], off, |data|), data, off, resize, f.junk)
      ensures !status.Ok? ==> slots[i].Content() == old(slots)[i].Content()
      ensures !status.Ok? ==>
                slots[i].image == old(slots)[i].image || slots[i].image == Prepared(dcbs, old(slots)[i], off, |data|)
      ensures slots[i].key.dsname in dcbs && Vtoc(fate, old(tick)).None? ==> !status.Ok?
      ensures old(CountedAt(slots[i], dcbs)) || off != |old(slots)[i].Content()| ==>
                status.Ok? == (f.stores && RoomAfter(old(slots), i, data, off, Vtoc(fate, old(tick))))
      ensures var s := old(slots)[i];
              && (!status.Ok? && f.stores ==> (CountedAt(s, dcbs) ==> CountedAt(slots[i], dcbs)))
              && ((status.Ok? && slots[i].Content() == Splice(s.Content(), off, data)
                   && (CountedAt(s, dcbs) || off != |s.Content()|)) ==> CountedAt(slots[i], dcbs))
      ensures forall k | k != slots[i].key :: View(k) == old(View(k))
      ensures forall j | 0 <= j < MAX_PENDING :: (old(SettledAt(j)) || (j == i && status.Ok?)) ==> SettledAt(j)
    {
      VisibleAt(slots, disk, i);
      var account;
      status, account := Admit(i, data, off);
      SameCounted(old(slots)[i], slots[i]);
      if status.Ok? {
        assert OkAt(slots[i]);
        status := StoreAdmitted(i, Changed(slots[i].image, data, off, resize, f.junk), account, f,
                                Splice(slots[i].Content(), off, data),
                                CountedAt(old(slots)[i], dcbs) || off != |slots[i].Content()|);
      }
    }

    /** Adopt an admitted account with the image that was stored, unless that failed: then only the
        account has moved on. */
    method StoreAdmitted(i: nat, image: Image, account: Account, f: Fate, ghost flat: seq<byte>, ghost known: bool)
      returns (status: Status)
      requires Valid() && i < MAX_PENDING && slots[i].Used?
      requires image.Valid() && |image.Content()| <= MAX_MEMBER_BYTES && Admitted(i, account, flat, known)
      modifies this`slots
      ensures Valid() && Holds(slots[i], old(slots)[i].key) && slots == old(slots)[i := slots[i]]
      ensures View(slots[i].key) == Some(slots[i].Content())
      ensures status.Ok? == f.stores && (status.Ok? ==> slots[i].image == image && slots[i].dirty && SpaceHolds(slots[i].key))
      ensures !status.Ok? ==> slots[i].image == old(slots)[i].image
      ensures status.Ok? && known && image.Content() == flat ==> CountedAt(slots[i], dcbs)
      ensures forall k | k != slots[i].key :: View(k) == old(View(k))
      ensures forall j | 0 <= j < MAX_PENDING :: (old(SettledAt(j)) || (j == i && status.Ok?)) ==> SettledAt(j)
    {
      VisibleAt(slots, disk, i);
      if f.stores {
        Adopt(i, image, account, f.clock, flat, known);
        status := Ok;
      } else {
        NoteFailedStore(i, account);
        status := Eio;
      }
    }

    /** The member shows what storing `data` at `off` makes of `img`, which is the splice where
        `img` says so; and everything pending for the dataset fits. */
    ghost predicate Wrote(key: Key, img: Image, off: nat, data: seq<byte>, junk: seq<byte>)
      reads `slots, `disk, `dscb
    {
      && Pending(slots, key) && ImageAt(slots, key) == Store(img, off, data, junk)
      && View(key) == Some(Store(img, off, data, junk).Content())
      && (StoresExactly(img, off, data) ==> View(key) == Some(Splice(img.Content(), off, data)))
      && SpaceHolds(key)
    }

    /** NFS WRITE, where the sum of offset and count does not wrap: for one that does nothing is
        promised. A write that is done makes the member's image the stored one; a refused one
        leaves what a client sees alone, unless it leaves an empty slot behind. Accounts stay true
        unless an admitted store fails or is not what it should be. */
    method Write(key: Key, data: seq<byte>, off: nat) returns (status: Status)
      requires Valid() && off < U64 && |data| < U32
      modifies this, full
      ensures off + |data| < U64 ==> Valid() && lost >= old(lost) && OnDisk(disk, key) == old(OnDisk(disk, key))
      ensures off + |data| < U64 && status.Ok? ==>
                && off + |data| <= MAX_MEMBER_BYTES && (!old(Pending(slots, key)) ==> off == 0)
                && Wrote(key, old(Now().Base(key, off, |data|)), off, data, fate(old(tick)).junk)
                && fate(old(tick)).stores && Dirty(slots, key)
      ensures off + |data| < U64 ==> forall k :: old(SoundFor(slots, k)) ==> SoundFor(slots, k)
      ensures off + |data| < U64 && old(Now().TrueAccount(key) || off != |ImageAt(slots, key).Content()|) ==>
                status.Ok? == old(Now().Accepts(fate, key, data, off))
      ensures off + |data| < U64 && key.dsname in dcbs && (forall n: nat :: Vtoc(fate, n).None?) ==> !status.Ok?
      ensures off + |data| < U64 && !status.Ok? ==>
                View(key) == if old(Now().LeavesEmpty(fate, key, off, |data|)) then Some([]) else old(View(key))
      ensures off + |data| < U64 ==> forall k | k != key && !old(Pending(slots, k)) :: View(k) == old(View(k))
      ensures off + |data| < U64 && old(Settled()) && lost == old(lost) ==> forall k | k != key :: View(k) == old(View(k))
      ensures (off + |data| < U64 && old(Settled())
               && (status.Ok? || !old(Now().LeavesEmpty(fate, key, off, |data|)) || old(OnDisk(disk, key)) == Some([]))) ==> Settled()
      ensures (off + |data| < U64 && old(Truthful())
               && if status.Ok? then StoresExactly(old(Now().Base(key, off, |data|)), off, data) else fate(old(tick)).stores) ==>
                Truthful()
    {
      CapWraps(off, |data|);
      if !WithinCap(off, |data|) {
        return Enospc;
      }
      if off + |data| >= U64 {
        return Ok;              // outside the model from here on
      }
      ghost var was := Now();
      var f, isFull := Gate(key);
      AcceptsIs(was, key, data, off, tick);
      if isFull {
        return Enospc;
      }
      status := WriteHere(key, data, off, f);
    }

    lemma AcceptsIs(s: State, key: Key, data: seq<byte>, off: nat, n: nat)
      requires n == s.tick + 1
      ensures s.Accepts(fate, key, data, off)
           == (&& WithinCap(off, |data|) && !s.KnownFull(fate, key) && fate(s.tick).stores && (Pending(s.slots, key) || off == 0)
               && Placeable(fate, s.slots, s.enqs, s.dcbs, key, Splice(ImageAt(s.slots, key).Content(), off, data), n))
    {
    }

    /** What every request that makes or changes a member asks first: is its dataset known full? */
    method Gate(key: Key) returns (f: Fate, isFull: bool)
      requires Valid()
      modifies this`tick, full
      ensures Valid() && f == fate(old(tick)) && tick == old(tick) + 1
      ensures isFull == old(Now().KnownFull(fate, key))
    {
      f := Draw();
      isFull := full.IsFull(key.dsname, f.clock);
    }

    /** WRITE past the tests that come first. */
    method WriteHere(key: Key, data: seq<byte>, off: nat, f: Fate) returns (status: Status)
      requires Valid() && off + |data| <= MAX_MEMBER_BYTES
      modifies this, full
      ensures Valid() && lost >= old(lost) && OnDisk(disk, key) == old(OnDisk(disk, key))
      ensures status.Ok? ==>
                && (!old(Pending(slots, key)) ==> off == 0) && f.stores && Dirty(slots, key)
                && Wrote(key, old(Now().Base(key, off, |data|)), off, data, f.junk)
      ensures forall k :: old(SoundFor(slots, k)) ==> SoundFor(slots, k)
      ensures key.dsname in dcbs && (forall n: nat :: Vtoc(fate, n).None?) ==> !status.Ok?
      ensures old(Now().TrueAccount(key) || off != |ImageAt(slots, key).Content()|) ==>
                status.Ok? == (&& f.stores && (old(Pending(slots, key)) || off == 0)
                               && old(Placeable(fate, slots, enqs, dcbs, key, Splice(ImageAt(slots, key).Content(), off, data), tick)))
      ensures
        var empty := !old(Pending(slots, key)) && off == 0 && old(CanBegin(fate, slots, enqs, key, tick));
        && (!status.Ok? ==> View(key) == if empty then Some([]) else old(View(key)))
        && (old(Settled()) && (status.Ok? || !empty || old(OnDisk(disk, key)) == Some([])) ==> Settled())
      ensures forall k | k != key && !old(Pending(slots, k)) :: View(k) == old(View(k))
      ensures old(Settled()) && lost == old(lost) ==> forall k | k != key :: View(k) == old(View(k))
      ensures (old(Truthful()) && if status.Ok? then StoresExactly(old(Now().Base(key, off, |data|)), off, data) else f.stores) ==>
                Truthful()
    {
      var i: int := Find(key);
      if i >= 0 {
        ImageIs(slots, i);
        VisibleAt(slots, disk, i);
        status := WriteAt(i, data, off, f);
      } else if off != 0 {
        status := Eio;
      } else {
        assert Splice([], 0, data) == data;
        status := WriteNew(key, data, f);
      }
    }

    /** WRITE to the member pending in slot `i`. */
    method WriteAt(i: nat, data: seq<byte>, off: nat, f: Fate) returns (status: Status)
      requires Valid() && i < MAX_PENDING && slots[i].Used? && off + |data| <= MAX_MEMBER_BYTES
      modifies this`slots, this`tick, this`dscb
      ensures Valid() && slots == old(slots)[i := slots[i]]
      ensures status.Ok? ==> Wrote(old(slots)[i].key, Prepared(dcbs, old(slots)[i], off, |data|), off, data, f.junk)
      ensures status.Ok? ==> f.stores && Holds(slots[i], old(slots)[i].key) && slots[i].dirty
      ensures forall k :: old(SoundFor(slots, k)) ==> SoundFor(slots, k)
      ensures old(slots)[i].key.dsname in dcbs && Vtoc(fate, old(tick)).None? ==> !status.Ok?
      ensures old(CountedAt(slots[i], dcbs)) || off != |old(slots)[i].Content()| ==>
                status.Ok? == (f.stores && RoomAfter(old(slots), i, data, off, Vtoc(fate, old(tick))))
      ensures !status.Ok? ==> View(old(slots)[i].key) == Some(old(slots)[i].Content())
      ensures forall k | k != old(slots)[i].key :: View(k) == old(View(k))
      ensures forall j | 0 <= j < MAX_PENDING :: (old(SettledAt(j)) || (j == i && status.Ok?)) ==> SettledAt(j)
      ensures (old(Truthful())
               && if status.Ok? then StoresExactly(Prepared(dcbs, old(slots)[i], off, |data|), off, data) else f.stores) ==> Truthful()
    {
      assert OkAt(slots[i]);
      ChangedExactly(slots[i], data, off, f.junk);
      ChangedSound(slots[i], data, off, false, f.junk);
      status := Change(i, data, off, false, f);
      ImageIs(slots, i);
      SetCounted(old(slots), dcbs, i, slots[i]);
      SetSound(old(slots), i, slots[i]);
    }

    /** WRITE at offset 0 of a member that is not pending. */
    method WriteNew(key: Key, data: seq<byte>, f: Fate) returns (status: Status)
      requires Valid() && !Pending(slots, key) && |data| <= MAX_MEMBER_BYTES
      modifies this, full
      ensures Valid() && lost >= old(lost)
      ensures status.Ok? ==> Wrote(key, EMPTY, 0, data, f.junk) && f.stores && Dirty(slots, key)
      ensures forall k :: old(SoundFor(slots, k)) ==> SoundFor(slots, k)
      ensures OnDisk(disk, key) == old(OnDisk(disk, key))
      ensures status.Ok? == (f.stores && old(CanBegin(fate, slots, enqs, key, tick) && NewRoom(fate, slots, dcbs, key, data, tick)))
      ensures !status.Ok? ==> View(key) == if old(CanBegin(fate, slots, enqs, key, tick)) then Some([]) else old(View(key))
      ensures forall k | k != key && !old(Pending(slots, k)) :: View(k) == old(View(k))
      ensures old(Settled()) && lost == old(lost) ==> forall k | k != key :: View(k) == old(View(k))
      ensures old(Settled()) && (status.Ok? || !old(CanBegin(fate, slots, enqs, key, tick)) || old(OnDisk(disk, key)) == Some([])) ==> Settled()
      ensures old(Truthful()) && (status.Ok? || f.stores) ==> Truthful()
    {
      var i;
      status, i := SlotNew(key);
      if status.Ok? {
        assert old(OnDisk(disk, key)) == Some([]) ==> SettledAt(i);
        assert Prepared(dcbs, slots[i], 0, |data|) == EMPTY;
        NewRoomAfter(old(slots), old(tick), slots, tick, i, key, data);
        status := WriteAt(i, data, 0, f);
      }
    }

    lemma NewRoomAfter(was: seq<Slot>, n: nat, now: seq<Slot>, m: nat, i: nat, key: Key, data: seq<byte>)
      requires i == TheChosen(was) < |was| == |now| && now == was[i := now[i]] && Holds(now[i], key) && now[i].Content() == []
      requires m == n + Draws(was[i]) + 2
      ensures RoomAfter(now, i, data, 0, Vtoc(fate, m)) == NewRoom(fate, was, dcbs, key, data, n)
    {
      assert Splice([], 0, data) == data;
      NewRoomIs(fate, was, dcbs, key, data, n, i, now);
    }

    /** Begin an empty member that is not pending: predicted, dirty, or not begun at all. */
    method CreateNew(key: Key, now: int) returns (status: Status)
      requires Valid() && !Pending(slots, key)
      modifies this, full
      ensures Valid() && lost >= old(lost) && (old(Truthful()) ==> Truthful())
      ensures View(key) == if status.Ok? then Some([]) else old(View(key))
      ensures status.Ok? ==> SpaceHolds(key) && Dirty(slots, key) && Pending(slots, key) && ImageAt(slots, key) == EMPTY
      ensures status.Ok? == old(CanBegin(fate, slots, enqs, key, tick) && NewRoom(fate, slots, dcbs, key, [], tick))
      ensures forall k :: old(SoundFor(slots, k)) ==> SoundFor(slots, k)
      ensures forall k | k != key && !old(Pending(slots, k)) :: View(k) == old(View(k))
      ensures old(Settled()) && lost == old(lost) ==> forall k | k != key :: View(k) == old(View(k))
      ensures old(Settled()) ==> Settled()
    {
      var i;
      status, i := SlotNew(key);
      if status.Ok? {
        NewRoomEmpty(old(slots), old(tick), slots, tick, i, key);
        status := AdmitEmpty(i, now);
      }
    }

    lemma NewRoomEmpty(was: seq<Slot>, n: nat, now: seq<Slot>, m: nat, i: nat, key: Key)
      requires i == TheChosen(was) < |was| == |now| && now == was[i := now[i]] && m == n + Draws(was[i]) + 2
      ensures Room(now, dcbs, i, key.dsname, [], Vtoc(fate, m)) == NewRoom(fate, was, dcbs, key, [], n)
    {
      NewRoomIs(fate, was, dcbs, key, [], n, i, now);
    }

    /** Predict a new empty member and owe its flush, or give everything back. */
    method AdmitEmpty(i: nat, now: int) returns (status: Status)
      requires Valid() && i < MAX_PENDING && slots[i].Used? && slots[i].image == EMPTY && CountedAt(slots[i], dcbs)
      modifies this`slots, this`tick, this`dscb, this`enqs, this`allocs, this`fatal, this`leakedEnqs, this`leakedAllocs, this`released
      ensures Valid() && (old(Truthful()) ==> Truthful())
      ensures View(old(slots)[i].key) == if status.Ok? then Some([]) else OnDisk(disk, old(slots)[i].key)
      ensures status.Ok? ==>
                var key := old(slots)[i].key;
                SpaceHolds(key) && Dirty(slots, key) && Pending(slots, key) && ImageAt(slots, key) == EMPTY
      ensures slots == old(slots)[i := slots[i]] && Sound(if slots[i].Used? then slots[i].image else EMPTY)
      ensures status.Ok? == Room(old(slots), dcbs, i, old(slots)[i].key.dsname, [], Vtoc(fate, old(tick)))
      ensures forall k | k != old(slots)[i].key :: View(k) == old(View(k))
      ensures forall j | 0 <= j < MAX_PENDING :: (j == i || old(SettledAt(j))) ==> SettledAt(j)
    {
      VisibleAt(slots, disk, i);
      status := PredictEmpty(i, now);
      ImageIs(slots, i);
      if !status.Ok? {
        Drop(i);
      }
    }

    /** Predict a member that holds nothing, and owe its flush if that passes. */
    method PredictEmpty(i: nat, now: int) returns (status: Status)
      requires Valid() && i < MAX_PENDING && slots[i].Used? && slots[i].Content() == []
      modifies this`slots, this`tick, this`dscb
      ensures Valid() && Holds(slots[i], old(slots)[i].key) && slots == old(slots)[i := slots[i]]
      ensures slots[i].image == old(slots)[i].image && (slots[i].dirty <==> status.Ok? || old(slots)[i].dirty)
      ensures old(Truthful()) ==> Truthful()
      ensures status.Ok? ==> SpaceHolds(slots[i].key)
      ensures old(CountedAt(slots[i], dcbs)) ==>
                status.Ok? == Room(old(slots), dcbs, i, slots[i].key.dsname, [], Vtoc(fate, old(tick)))
      ensures forall k :: View(k) == old(View(k))
      ensures forall j | 0 <= j < MAX_PENDING :: (old(SettledAt(j)) || (j == i && status.Ok?)) ==> SettledAt(j)
    {
      VisibleAt(slots, disk, i);
      assert Splice([], 0, []) == [];
      var account;
      status, account := Admit(i, [], 0);
      SameCounted(old(slots)[i], slots[i]);
      if status.Ok? {
        Adopt(i, slots[i].image, account, now, [], CountedAt(old(slots)[i], dcbs));
      }
      SetCounted(old(slots), dcbs, i, slots[i]);
    }

    /** Empty a pending member without touching what it holds; its account starts over. */
    method Reset(i: nat)
      requires Valid() && i < MAX_PENDING && slots[i].Used?
      modifies this`slots
      ensures Valid() && slots == old(slots)[i := old(slots)[i].(image := Recreated(old(slots)[i].image), account := Blank(old(slots)[i].key))]
      ensures CountedAt(slots[i], dcbs) && View(slots[i].key) == Some([])
      ensures forall k | k != slots[i].key :: View(k) == old(View(k))
      ensures forall j | 0 <= j < MAX_PENDING && j != i :: old(SettledAt(j)) ==> SettledAt(j)
    {
      assert OkAt(slots[i]);
      SetSlot(i, slots[i].(image := Recreated(slots[i].image), account := Blank(slots[i].key)));
      assert slots[i].key.dsname in dcbs ==> Tracks(slots[i].account, dcbs[slots[i].key.dsname], [], []);
    }

    /** CREATE over a pending member. It is emptied even if the empty member is then refused; that
        leaves a clean slot untrue if it was clean and held something. */
    method Recreate(i: nat, now: int) returns (status: Status)
      requires Valid() && i < MAX_PENDING && slots[i].Used?
      modifies this`slots, this`tick, this`dscb
      ensures Valid() && Holds(slots[i], old(slots)[i].key) && (old(Truthful()) ==> Truthful())
      ensures View(slots[i].key) == Some([])
      ensures Pending(slots, slots[i].key) && ImageAt(slots, slots[i].key) == Recreated(old(slots)[i].image)
      ensures forall k | k != slots[i].key || old(slots)[i].image.Held? || old(slots)[i].Content() == [] ::
                old(SoundFor(slots, k)) ==> SoundFor(slots, k)
      ensures status.Ok? == Room(old(slots), dcbs, i, slots[i].key.dsname, [], Vtoc(fate, old(tick)))
      ensures status.Ok? ==> SpaceHolds(slots[i].key) && Dirty(slots, slots[i].key)
      ensures forall k | k != slots[i].key :: View(k) == old(View(k))
      ensures forall j | 0 <= j < MAX_PENDING && j != i :: old(SettledAt(j)) ==> SettledAt(j)
      ensures old(SettledAt(i)) ==>
                (SettledAt(i) <==> status.Ok? || old(slots)[i].dirty || old(slots)[i].Content() == [])
    {
      Reset(i);
      SetCounted(old(slots), dcbs, i, slots[i]);
      SameRoom(old(slots), slots, dcbs, i, slots[i].key.dsname, [], Vtoc(fate, tick));
      status := PredictEmpty(i, now);
      ImageIs(slots, i);
      SetSound(old(slots), i, slots[i]);
    }

    /** NFS READ of a pending member: its bytes from `off`, as many as there are, and whether they
        reach its end. A member that is not pending is read from disk. */
    method ReadPending(key: Key, off: nat, count: nat) returns (found: bool, data: seq<byte>, eof: bool)
      requires Valid()
      modifies this`slots
      ensures Valid() && found == old(Pending(slots, key)) && (forall k :: Pending(slots, k) == old(Pending(slots, k)))
      ensures found ==> old(View(key)).Some? && data == Slice(old(View(key)).value, off, count)
      ensures found ==> (eof <==> off + |data| >= |old(View(key)).value|)
      ensures forall k :: old(SoundFor(slots, k)) ==> SoundFor(slots, k)
      ensures forall k :: View(k) == old(View(k))
      ensures old(Truthful()) ==> Truthful()
      ensures old(Settled()) ==> Settled()
    {
      found, data, eof := false, [], true;
      var i := Find(key);
      if i < 0 {
        return;
      }
      var s := slots[i];
      assert OkAt(s);
      VisibleAt(slots, disk, i);
      data := Slice(s.Content(), off, count);
      found, eof := true, off + |data| >= |s.Content()|;
      Fetch(i, |data|);
      SetSound(old(slots), i, slots[i]);
      PendingSame(old(slots), slots);
    }

    /** NFS CREATE: a new empty member, or a pending one emptied again. */
    method Create(key: Key) returns (status: Status)
      requires Valid()
      modifies this, full
      ensures Valid() && lost >= old(lost) && (old(Truthful()) ==> Truthful())
      ensures status.Ok? ==> View(key) == Some([]) && SpaceHolds(key) && Dirty(slots, key)
      ensures status.Ok? == old(Now().Makes(fate, key))
      ensures status.Ok? || old(Now().Empties(fate, key)) ==>
                Pending(slots, key) && ImageAt(slots, key) == Recreated(old(ImageAt(slots, key)))
      ensures forall k | k != key || !old(Now().Empties(fate, key) && Now().Abandons(key)) :: old(SoundFor(slots, k)) ==> SoundFor(slots, k)
      ensures !status.Ok? ==> View(key) == if old(Now().Empties(fate, key)) then Some([]) else old(View(key))
      ensures forall k | k != key && !old(Pending(slots, k)) :: View(k) == old(View(k))
      ensures old(Settled()) && lost == old(lost) ==> forall k | k != key :: View(k) == old(View(k))
      ensures old(Settled()) && (status.Ok? || !old(Now().Empties(fate, key)) || !old(Now().CleanBytes(key))) ==> Settled()
    {
      ghost var was := Now();
      var f, isFull := Gate(key);
      MakesIs(was, key, tick);
      if isFull {
        return Enospc;
      }
      status := CreateHere(key, f.clock);
    }

    lemma MakesIs(s: State, key: Key, n: nat)
      requires n == s.tick + 1
      ensures s.Makes(fate, key) == (!s.KnownFull(fate, key) && Placeable(fate, s.slots, s.enqs, s.dcbs, key, [], n))
    {
    }

    method CreateHere(key: Key, now: int) returns (status: Status)
      requires Valid()
      modifies this, full
      ensures Valid() && lost >= old(lost) && (old(Truthful()) ==> Truthful())
      ensures status.Ok? ==> View(key) == Some([]) && SpaceHolds(key) && Dirty(slots, key)
      ensures status.Ok? == old(Placeable(fate, slots, enqs, dcbs, key, [], tick))
      ensures status.Ok? || old(Pending(slots, key)) ==>
                Pending(slots, key) && ImageAt(slots, key) == Recreated(old(ImageAt(slots, key)))
      ensures forall k | k != key || !old(Now().Abandons(key)) :: old(SoundFor(slots, k)) ==> SoundFor(slots, k)
      ensures !status.Ok? ==> View(key) == if old(Pending(slots, key)) then Some([]) else old(View(key))
      ensures forall k | k != key && !old(Pending(slots, k)) :: View(k) == old(View(k))
      ensures old(Settled()) && lost == old(lost) ==> forall k | k != key :: View(k) == old(View(k))
      ensures old(Settled()) && (status.Ok? || !old(Now().CleanBytes(key))) ==> Settled()
    {
      var i := Find(key);
      if i < 0 {
        status := CreateNew(key, now);
      } else {
        ImageIs(slots, i);
        status := Recreate(i, now);
      }
    }

    /** The member shows what giving it size `n` makes of `img`, which is the resize where `img` says
        so; and after a growth everything pending for the dataset fits. */
    ghost predicate Resized(key: Key, img: Image, n: nat, junk: seq<byte>)
      reads `slots, `disk, `dscb
    {
      && Pending(slots, key) && ImageAt(slots, key) == SetSize(img, n, junk)
      && View(key) == Some(SetSize(img, n, junk).Content())
      && (SizesExactly(img, n) ==> View(key) == Some(Resize(img.Content(), n)))
      && (n > |img.Content()| ==> SpaceHolds(key))
    }

    /** NFS SETATTR of the size. Of a member that is not pending only the size 0 means anything: a
        shrink of what is on disk is refused, and a growth ignored. */
    method Truncate(key: Key, n: nat) returns (status: Status)
      requires Valid()
      modifies this, full
      ensures Valid() && lost >= old(lost)
      ensures status.Ok? && (n == 0 || old(Pending(slots, key))) ==>
                Resized(key, old(Now().SizeBase(key, n)), n, fate(old(tick)).junk)
      ensures status.Ok? && n == 0 && !old(Pending(slots, key)) ==> SpaceHolds(key)
      ensures status.Ok? == old(Now().Sizes(fate, key, n))
      ensures status.Ok? && n != 0 && !old(Pending(slots, key)) ==> key in old(disk) && |old(disk)[key]| <= n
      ensures forall k | k != key || !old(Now().CutsRagged(key, n)) :: old(SoundFor(slots, k)) ==> SoundFor(slots, k)
      ensures n == 0 && old(ImageAt(slots, key).Content()) != [] ==> SoundFor(slots, key)
      ensures !status.Ok? || (n != 0 && !old(Pending(slots, key))) ==> View(key) == old(View(key))
      ensures forall k | k != key && !old(Pending(slots, k)) :: View(k) == old(View(k))
      ensures old(Settled()) && lost == old(lost) ==> forall k | k != key :: View(k) == old(View(k))
      ensures old(Settled()) ==> Settled()
      ensures (old(Truthful()) && if status.Ok? then SizesExactly(old(Now().SizeBase(key, n)), n) else fate(old(tick)).stores) ==>
                Truthful()
    {
      if n > MAX_MEMBER_BYTES {
        return Enospc;
      }
      ghost var was := Now();
      var f := Draw();
      SizesIs(was, key, n, tick);
      var i: int := Find(key);
      if i < 0 {
        status := TruncateAbsent(key, n, f);
      } else {
        ImageIs(slots, i);
        VisibleAt(slots, disk, i);
        status := ResizeAt(i, n, f);
      }
    }

    lemma SizesIs(s: State, key: Key, n: nat, m: nat)
      requires m == s.tick + 1 && n <= MAX_MEMBER_BYTES
      ensures Pending(s.slots, key) ==>
        s.Sizes(fate, key, n)
        == (n <= |ImageAt(s.slots, key).Content()| || (fate(s.tick).stores
            && Room(s.slots, s.dcbs, IndexOf(s.slots, key), key.dsname, Resize(ImageAt(s.slots, key).Content(), n), Vtoc(fate, m))))
      ensures !Pending(s.slots, key) && n == 0 ==>
        s.Sizes(fate, key, n) == (CanBegin(fate, s.slots, s.enqs, key, m) && NewRoom(fate, s.slots, s.dcbs, key, [], m))
    {
    }

    /** SETATTR of the size of a member that is not pending. */
    method TruncateAbsent(key: Key, n: nat, f: Fate) returns (status: Status)
      requires Valid() && !Pending(slots, key)
      modifies this, full
      ensures Valid() && lost >= old(lost) && (old(Truthful()) ==> Truthful())
      ensures status.Ok? && n == 0 ==> Resized(key, EMPTY, 0, f.junk) && SpaceHolds(key)
      ensures n == 0 ==> status.Ok? == old(CanBegin(fate, slots, enqs, key, tick) && NewRoom(fate, slots, dcbs, key, [], tick))
      ensures forall k :: old(SoundFor(slots, k)) ==> SoundFor(slots, k)
      ensures n != 0 ==> (status.Ok? <==> key in old(disk) && |old(disk)[key]| <= n)
      ensures !status.Ok? || n != 0 ==> View(key) == old(View(key))
      ensures forall k | k != key && !old(Pending(slots, k)) :: View(k) == old(View(k))
      ensures old(Settled()) && lost == old(lost) ==> forall k | k != key :: View(k) == old(View(k))
      ensures old(Settled()) ==> Settled()
    {
      if n == 0 {
        status := CreateNew(key, f.clock);
      } else {
        status := if key !in disk then Enoent else if n < |disk[key]| then Eio else Ok;
      }
    }

    /** The image that a resize of slot `s` starts from. */
    function SizeBase(s: Slot, n: nat): Image
      requires s.Used?
    {
      if n > |s.Content()| then Prepared(dcbs, s, n, 0) else s.image
    }

    /** Resize the member in slot `i`; only a growth is predicted first. */
    method ResizeAt(i: nat, n: nat, f: Fate) returns (status: Status)
      requires Valid() && i < MAX_PENDING && slots[i].Used? && n <= MAX_MEMBER_BYTES
      modifies this`slots, this`tick, this`dscb
      ensures Valid()
      ensures status.Ok? ==> Resized(old(slots)[i].key, SizeBase(old(slots)[i], n), n, f.junk)
      ensures n <= |old(slots)[i].Content()| ==> status.Ok?
      ensures n > |old(slots)[i].Content()| ==>
                status.Ok? == (f.stores && Room(old(slots), dcbs, i, old(slots)[i].key.dsname, Resize(old(slots)[i].Content(), n), Vtoc(fate, old(tick))))
      ensures forall k | k != old(slots)[i].key || !RaggedCut(old(slots)[i].image, n) :: old(SoundFor(slots, k)) ==> SoundFor(slots, k)
      ensures n == 0 && old(slots)[i].Content() != [] ==> SoundFor(slots, old(slots)[i].key)
      ensures !status.Ok? ==> View(old(slots)[i].key) == Some(old(slots)[i].Content())
      ensures forall k | k != old(slots)[i].key :: View(k) == old(View(k))
      ensures old(Settled()) ==> Settled()
      ensures (old(Truthful()) && if status.Ok? then SizesExactly(SizeBase(old(slots)[i], n), n) else f.stores) ==> Truthful()
    {
      VisibleAt(slots, disk, i);
      assert OkAt(slots[i]);
      SizedExactly(slots[i], n, f.junk);
      if n > |slots[i].Content()| {
        ChangedSound(slots[i], [], n, true, f.junk);
        status := Change(i, [], n, true, f);
        SetCounted(old(slots), dcbs, i, slots[i]);
      } else {
        if n < |slots[i].Content()| {
          CutSound(slots[i].image, n, f.junk);
          Cut(i, n, f.clock, f.junk);
        }
        status := Ok;
      }
      ImageIs(slots, i);
      SetSound(old(slots), i, slots[i]);
    }

    /** It gives the flat-file bytes where the image it starts from says so. */
    lemma SizedExactly(s: Slot, n: nat, junk: seq<byte>)
      requires s.Used? && s.image.Valid()
      ensures SizesExactly(SizeBase(s, n), n) ==> MemberImage.SetSize(SizeBase(s, n), n, junk).Content() == Resize(s.Content(), n)
      ensures n > |s.Content()| ==> Resize(s.Content(), n) == Splice(s.Content(), n, [])
    {
      if SizesExactly(SizeBase(s, n), n) {
        ExactSize(SizeBase(s, n), n, junk);
      }
    }

    lemma CutSound(img: Image, n: nat, junk: seq<byte>)
      requires img.Valid() && n < |img.Content()|
      ensures Sound(img) && !RaggedCut(img, n) ==> Sound(MemberImage.SetSize(img, n, junk))
      ensures n == 0 ==> Sound(MemberImage.SetSize(img, n, junk))
    {
      if Sound(img) {
        SoundStays(img, 0, [], n, junk);
      }
      if n == 0 {
        EmptyIsSound(img, junk);
      }
    }

    /** Shrinking frees space, so it is not predicted; the account keeps counting what was cut. */
    method Cut(i: nat, n: nat, now: int, junk: seq<byte>)
      requires Valid() && i < MAX_PENDING && slots[i].Used? && n < |slots[i].Content()|
      modifies this`slots
      ensures Valid() && (old(Truthful()) ==> Truthful())
      ensures slots == old(slots)[i := old(slots)[i].(image := SetSize(old(slots)[i].image, n, junk), dirty := true, lastWrite := now)]
      ensures View(slots[i].key) == Some(Resize(old(slots)[i].Content(), n))
      ensures forall k | k != slots[i].key :: View(k) == old(View(k))
      ensures forall j | 0 <= j < MAX_PENDING :: (j == i || old(SettledAt(j))) ==> SettledAt(j)
    {
      var s := slots[i];
      assert OkAt(s);
      ExactSize(s.image, n, junk);
      var shorter := s.(image := SetSize(s.image, n, junk), dirty := true, lastWrite := now);
      assert shorter.Content() <= s.Content();
      CutCounted(s, shorter);
      SetCounted(slots, dcbs, i, shorter);
      SetSlot(i, shorter);
    }

    /** An account that was true stays so when content is cut off. */
    lemma CutCounted(s: Slot, t: Slot)
      requires s.Used? && t.Used? && s.key == t.key && s.account == t.account && t.Content() <= s.Content()
      ensures CountedAt(s, dcbs) ==> CountedAt(t, dcbs)
    {
      if CountedAt(s, dcbs) && s.key.dsname in dcbs {
        var stream :| Tracks(s.account, dcbs[s.key.dsname], s.Content(), stream);
        assert Tracks(t.account, dcbs[s.key.dsname], t.Content(), stream);
      }
    }

    /** Drop a member's pending bytes without writing them. */
    method Discard(key: Key) returns (had: bool)
      requires Valid()
      modifies this, full
      ensures forall k :: old(SoundFor(slots, k)) ==> SoundFor(slots, k)
      ensures old(Truthful()) ==> Truthful()
      ensures Valid() && had == old(Pending(slots, key)) && !Pending(slots, key)
      ensures tick == old(tick) + if had then 1 else 0
      ensures lost == old(lost) && disk == old(disk)
      ensures forall k | k != key :: View(k) == old(View(k))
      ensures View(key) == OnDisk(disk, key)
      ensures forall j | 0 <= j < MAX_PENDING :: old(SettledAt(j)) ==> SettledAt(j)
    {
      var i := Find(key);
      had := i >= 0;
      if had {
        Drop(i);
      }
    }

    /** NFS COMMIT: whatever happens, a client sees what it saw before. It reports success exactly
        when there is nothing dirty or that gets written. Clean slots stay true unless it fails
        for a full dataset or an abend. */
    method Commit(key: Key) returns (status: Status)
      requires Valid()
      modifies this, full
      ensures forall k :: old(SoundFor(slots, k)) ==> SoundFor(slots, k)
      ensures old(Truthful()) ==> Truthful()
      ensures Valid() && forall k :: View(k) == old(View(k))
      ensures status.Ok? == old(Now().Commits(fate, key)) && lost == old(lost) + if status.Ok? then 0 else 1
      ensures forall k | k != key :: OnDisk(disk, k) == old(OnDisk(disk, k))
      ensures forall k :: Pending(slots, k) == old(Pending(slots, k))
      ensures status.Ok? ==> OnDisk(disk, key) == old(Now().Durable(key))
      ensures Dirty(slots, key) <==> old(Dirty(slots, key)) && !status.Ok? && !old(Now().Forsakes(fate, key))
      ensures old(Dirty(slots, key)) && old(View(key)).Some? ==> disk == old(Written(key, View(key).value, tick))
      ensures old(Settled()) && !old(Now().Forsakes(fate, key)) ==> Settled()
      ensures old(Settled()) && status.Ok? ==> OnDisk(disk, key) == View(key)
    {
      var i := Find(key);
      if i < 0 {
        return Ok;
      }
      ImageIs(slots, i);
      VisibleAt(slots, disk, i);
      if slots[i].dirty {
        status := CommitSlot(i);
      } else {
        assert SettledAt(i) ==> OnDisk(disk, key) == View(key);
        status := Ok;
      }
    }

    /** COMMIT of the dirty member in slot `i`. */
    method CommitSlot(i: nat) returns (status: Status)
      requires Valid() && i < MAX_PENDING && slots[i].Used? && slots[i].dirty
      modifies this, full
      ensures Valid() && (old(Truthful()) ==> Truthful()) && forall k :: View(k) == old(View(k))
      ensures forall k :: Pending(slots, k) == old(Pending(slots, k))
      ensures forall k :: old(SoundFor(slots, k)) ==> SoundFor(slots, k)
      ensures disk == old(Written(slots[i].key, slots[i].Content(), tick))
      ensures status.Ok? == old(Saved(fate, full.marks, slots[i].key.dsname, tick))
      ensures lost == old(lost) + if status.Ok? then 0 else 1
      ensures var key := old(slots)[i].key;
        && (forall k | k != key :: OnDisk(disk, k) == old(OnDisk(disk, k)))
        && (status.Ok? ==> OnDisk(disk, key) == View(key))
        && (Dirty(slots, key) <==> !status.Ok? && !old(GivenUp(fate, full.marks, slots[i].key.dsname, tick)))
        && (old(Settled()) && (Dirty(slots, key) || status.Ok?) ==> Settled())
    {
      VisibleAt(slots, disk, i);
      var ok := FlushSlot(i);
      status := if ok then Ok else Eio;
      PendingSame(old(slots), slots);
      SetSound(old(slots), i, slots[i]);
      ImageIs(slots, i);
      VisibleAt(slots, disk, i);
    }

    /** Flush and release every slot that has been quiet too long, or all of them. */
    method Sweep(all: bool)
      requires Valid()
      modifies this, full
      ensures forall k :: old(SoundFor(slots, k)) ==> SoundFor(slots, k)
      ensures old(Truthful()) ==> Truthful()
      ensures Valid() && lost >= old(lost)
      ensures all ==> forall i | 0 <= i < MAX_PENDING :: slots[i].Free?
      ensures forall k | !old(Pending(slots, k)) :: View(k) == old(View(k))
      ensures old(Settled()) ==> Settled()
      ensures old(Settled()) && lost == old(lost) ==> forall k :: View(k) == old(View(k))
    {
      var f := Draw();
      for i := 0 to MAX_PENDING
        invariant Valid() && lost >= old(lost) && (old(Truthful()) ==> Truthful())
        invariant |slots| == MAX_PENDING && forall j | 0 <= j < MAX_PENDING :: slots[j].Free? || slots[j] == old(slots)[j]
        invariant all ==> forall j | 0 <= j < i :: slots[j].Free?
        invariant forall k | !old(Pending(slots, k)) :: View(k) == old(View(k))
        invariant old(Settled()) ==> Settled()
        invariant old(Settled()) && lost == old(lost) ==> forall k :: View(k) == old(View(k))
      {
        if slots[i].Used? && (all || f.clock - slots[i].lastWrite > IDLE_SECONDS) {
          assert Holds(old(slots)[i], slots[i].key);
          Retire(i);
        }
      }
      FewerSound(old(slots), slots);
    }

    /** NFS REMOVE. A refused one has dropped what was pending. */
    method Remove(key: Key) returns (status: Status)
      requires Valid()
      modifies this, full
      ensures forall k :: old(SoundFor(slots, k)) ==> SoundFor(slots, k)
      ensures old(Truthful()) ==> Truthful()
      ensures Valid() && lost == old(lost) && !Pending(slots, key)
      ensures status.Ok? ==> View(key).None?
      ensures !status.Ok? ==> View(key) == old(OnDisk(disk, key))
      ensures forall k | k != key :: View(k) == old(View(k))
      ensures old(Settled()) ==> Settled()
    {
      var had := Discard(key);
      var f := Draw();
      if key !in disk {
        return if had then Ok else Enoent;
      }
      if !f.unlinks {
        return Eio;
      }
      Unlink(key);
      status := Ok;
    }

    /** Take a member that is not pending off the disk. */
    method Unlink(key: Key)
      requires Valid() && !Pending(slots, key)
      modifies this`disk
      ensures old(Truthful()) ==> Truthful()
      ensures Valid() && View(key).None?
      ensures forall k | k != key :: View(k) == old(View(k))
      ensures forall j | 0 <= j < MAX_PENDING :: old(SettledAt(j)) ==> SettledAt(j)
    {
      disk := disk - {key};
      assert forall j | 0 <= j < MAX_PENDING :: !Holds(slots[j], key);
    }

    /** NFS RENAME within a dataset. On success the target holds what COMMIT of the source leaves on
        disk. A rename that fails after that has dropped what was pending for the target. */
    method Rename(from: Key, to: Key) returns (status: Status)
      requires Valid()
      modifies this, full
      ensures forall k :: old(SoundFor(slots, k)) ==> SoundFor(slots, k)
      ensures old(Truthful()) ==> Truthful()
      ensures Valid() && lost == old(lost) + if from.dsname != to.dsname || old(Now().Commits(fate, from)) then 0 else 1
      ensures from.dsname != to.dsname ==> status == Exdev && forall k :: View(k) == old(View(k))
      ensures status.Ok? ==> View(to) == old(Now().Durable(from)) && (from != to ==> View(from).None?)
      ensures status.Ok? ==> from.dsname == to.dsname && old(Now().Commits(fate, from)) && old(Now().Durable(from)).Some?
      ensures ((forall n: nat :: fate(n).renames) && from.dsname == to.dsname
               && old(Now().Commits(fate, from)) && old(Now().Durable(from)).Some?) ==> status.Ok?
      ensures old(Settled()) && status.Ok? ==> View(to) == old(View(from))
      ensures !status.Ok? && from != to ==> View(from) == old(View(from))
      ensures !status.Ok? && from != to ==>
                View(to) == if from.dsname == to.dsname && old(Now().Commits(fate, from)) then old(OnDisk(disk, to)) else old(View(to))
      ensures !status.Ok? && from == to ==> View(to) == if old(Now().Commits(fate, from)) then old(Now().Durable(from)) else old(View(to))
      ensures forall k | k != from && k != to :: View(k) == old(View(k))
      ensures old(Settled()) && (from.dsname != to.dsname || !old(Now().Forsakes(fate, from))) ==> Settled()
    {
      if from.dsname != to.dsname {
        return Exdev;
      }
      status := Commit(from);
      if !status.Ok? {
        return;
      }
      status := Replace(from, to);
    }

    /** The rename once nothing of the source is owed to the disk: whatever is pending for the
        target is dropped first. */
    method Replace(from: Key, to: Key) returns (status: Status)
      requires Valid()
      modifies this, full
      ensures forall k :: old(SoundFor(slots, k)) ==> SoundFor(slots, k)
      ensures Valid() && lost == old(lost) && (old(Truthful()) ==> Truthful())
      ensures status.Ok? ==> from in old(disk) && View(to) == old(OnDisk(disk, from)) && (from != to ==> View(from).None?)
      ensures from in old(disk) && fate(old(tick)).renames && fate(old(tick) + 1).renames ==> status.Ok?
      ensures !status.Ok? ==> View(to) == old(OnDisk(disk, to)) && (from != to ==> View(from) == old(View(from)))
      ensures forall k | k != from && k != to :: View(k) == old(View(k))
      ensures old(Settled()) ==> Settled()
    {
      var _ := Discard(to);
      var f := Draw();
      if from !in disk {
        return Enoent;
      }
      if !f.renames {
        return Eio;
      }
      Move(from, to);
      status := Ok;
    }

    /** The directory rename, and the source's slot dropped so that it cannot shadow it. */
    method Move(from: Key, to: Key)
      requires Valid() && from in disk && !Pending(slots, to)
      modifies this, full
      ensures forall k :: old(SoundFor(slots, k)) ==> SoundFor(slots, k)
      ensures old(Truthful()) ==> Truthful()
      ensures Valid() && lost == old(lost)
      ensures View(to) == Some(old(disk)[from]) && (from != to ==> View(from).None?)
      ensures forall k | k != from && k != to :: View(k) == old(View(k))
      ensures old(Settled()) ==> Settled()
    {
      disk := (disk - {from})[to := disk[from]];
      forall j | 0 <= j < MAX_PENDING && old(SettledAt(j)) && !Holds(slots[j], from)
        ensures SettledAt(j)
      {
        assert !Holds(slots[j], to);
      }
      var i := Find(from);
      if i >= 0 {
        Drop(i);
      }
      assert forall j | 0 <= j < MAX_PENDING :: old(SettledAt(j)) ==> SettledAt(j);
    }

    /** SETATTR of the times: rewrites the statistics of a member with nothing dirty, under its
        own enqueue when no slot holds one. `wanted` is whether the directory entry has
        statistics that differ. */
    method TouchStats(key: Key, wanted: bool)
      requires Valid()
      modifies this`tick, this`enqs, this`leakedEnqs
      ensures old(Truthful()) ==> Truthful()
      ensures Valid()
    {
      var i := Find(key);
      if i >= 0 || !wanted {
        return;
      }
      var n := tick;
      var f := Draw();
      if key in enqs || !f.enqueues {
        return;
      }
      enqs := enqs + {key};
      if fate(n).dequeues.Done? {
        enqs := enqs - {key};
      } else {
        leakedEnqs := leakedEnqs + {key};
      }
    }
  }
}
