/**
 Whole runs of the pending pool: any requests in any order, with any fates.
 */
module PoolRuns {
  import opened Bytes
  import opened BlockCalc
  import opened MemberImage
  import opened PoolState
  import opened PendingPool
  import FullTable

  datatype Request =
    | Creates(key: Key)
    | Writes(key: Key, data: seq<byte>, off: nat)
    | SetsSize(key: Key, n: nat)
    | SetsTimes(key: Key, wanted: bool)
    | Reads(key: Key, off: nat, count: nat)
    | Commits(key: Key)
    | Removes(key: Key)
    | Renames(from: Key, to: Key)
    | IdleSweep
    | Shutdown
  {
    /** Offset and count as they come off the wire, and do not wrap. */
    predicate Valid() {
      Writes? ==> |data| < U32 && off + |data| < U64
    }
  }

  /** Does a request ask for a member of this name to exist? */
  predicate Makes(q: Request, key: Key) {
    match q
    case Creates(k) => k == key
    case Writes(k, _, _) => k == key
    case SetsSize(k, _) => k == key
    case Renames(_, to) => to == key
    case _ => false
  }

  // ----- A file system that is just a map -------------------------------------------------

  /** The members a client sees, and their bytes. */
  type Files = imap<Key, seq<byte>>

  ghost function At(f: Files, key: Key): Option<seq<byte>> {
    if key in f then Some(f[key]) else None
  }

  ghost function BytesAt(f: Files, key: Key): seq<byte> {
    if key in f then f[key] else []
  }

  ghost predicate Same(f: Files, g: Files) {
    forall k :: At(g, k) == At(f, k)
  }

  /** Only the keys `a` and `b` may have changed. */
  ghost predicate Elsewhere(f: Files, g: Files, a: Key, b: Key) {
    forall k | k != a && k != b :: At(g, k) == At(f, k)
  }

  /** What a request that is done in state `s` means for a file system that is just a map from
      members to bytes. A member that is not pending is replaced by a WRITE, which is at its
      start, and stays as it is when SETATTR of its size does not empty it, which is no shrink. */
  ghost predicate Follows(s: State, f: Files, q: Request, g: Files) {
    match q
    case Creates(key) => Elsewhere(f, g, key, key) && At(g, key) == Some([])
    case Writes(key, data, off) =>
      && Elsewhere(f, g, key, key) && (Pending(s.slots, key) || off == 0)
      && At(g, key) == Some(Splice(if Pending(s.slots, key) then BytesAt(f, key) else [], off, data))
    case SetsSize(key, n) =>
      && Elsewhere(f, g, key, key)
      && if Pending(s.slots, key) || n == 0 then At(g, key) == Some(Resize(BytesAt(f, key), n))
         else key in f && |f[key]| <= n && At(g, key) == At(f, key)
    case Removes(key) => Elsewhere(f, g, key, key) && At(g, key).None?
    case Renames(from, to) =>
      && Elsewhere(f, g, from, to) && At(g, to) == At(f, from) && (from != to ==> At(g, from).None?)
    case _ => Same(f, g)
  }

  /** A request that is done does what it means, and one that is refused nothing. */
  ghost predicate Next(s: State, f: Files, q: Request, status: Status, g: Files) {
    if status.Ok? then Follows(s, f, q, g) else Same(f, g)
  }

  // ----- What goes wrong, from the state before it ----------------------------------------

  /** A refusal, or a failed COMMIT, that leaves a clean slot untrue. */
  ghost predicate Spoils(s: State, q: Request, status: Status, fate: nat -> Fate) {
    match q
    case Creates(key) => !status.Ok? && s.Empties(fate, key) && s.CleanBytes(key)
    case Writes(key, data, off) =>
      !status.Ok? && s.LeavesEmpty(fate, key, off, |data|) && OnDisk(s.disk, key) != Some([])
    case Commits(key) => s.Forsakes(fate, key)
    case Renames(from, to) => from.dsname == to.dsname && s.Forsakes(fate, from)
    case _ => false
  }

  /** A refusal that drops or empties pending bytes. */
  ghost predicate Drops(s: State, q: Request, status: Status, fate: nat -> Fate) {
    && !status.Ok?
    && match q
       case Creates(key) => s.Empties(fate, key) && ImageAt(s.slots, key).Content() != []
       case Removes(key) => Visible(s.slots, s.disk, key) != OnDisk(s.disk, key)
       case Renames(from, to) =>
         && from.dsname == to.dsname && s.Commits(fate, from)
         && from != to && Visible(s.slots, s.disk, to) != OnDisk(s.disk, to)
       case _ => false
  }

  /** A store that is done but is not sure to be the flat-file one: the member's scratch file may
      have lost its exactness, or shows old bytes where the store expects zeros. */
  ghost predicate Strays(s: State, q: Request, status: Status) {
    && status.Ok?
    && match q
       case Writes(key, data, off) => !StoresExactly(s.Base(key, off, |data|), off, data)
       case SetsSize(key, n) => !SizesExactly(s.SizeBase(key, n), n)
       case _ => false
  }

  ghost predicate Disturbs(s: State, q: Request, status: Status, fate: nat -> Fate) {
    Spoils(s, q, status, fate) || Drops(s, q, status, fate) || Strays(s, q, status)
  }

  /** No member was released with its flush failed: no flush did fail, or the one that did was
      asked for, and its member is still pending. */
  ghost predicate Keeps(s: State, q: Request, t: State, fate: nat -> Fate) {
    t.lost == s.lost || q.Commits? || (q.Renames? && !s.Commits(fate, q.from))
  }

  /** What every request guarantees, from a state in which clean slots are true and clients see
      `f` to one in which they see `g`. Clean slots stay true unless it spoils one. If it keeps
      every member, it does what it means when it is done and nothing when it is refused, unless it
      disturbs something. A COMMIT that is done has its member on disk. */
  ghost predicate Between(s: State, f: Files, q: Request, status: Status, t: State, g: Files, fate: nat -> Fate) {
    && (!Spoils(s, q, status, fate) ==> AllTrue(t.slots, t.disk))
    && (Keeps(s, q, t, fate) && !Disturbs(s, q, status, fate) ==> Next(s, f, q, status, g))
    && (q.Commits? && status.Ok? ==> OnDisk(t.disk, q.key) == At(g, q.key))
  }

  // ----- Space ----------------------------------------------------------------------------

  /** A store that failed, or that is not sure to be the flat-file one. */
  ghost predicate Misstores(s: State, q: Request, status: Status, fate: nat -> Fate) {
    || Strays(s, q, status)
    || ((q.Writes? || q.SetsSize?) && !status.Ok? && !fate(s.tick).stores)
  }

  /** The request was done after a prediction that its dataset has the space. */
  ghost predicate Admits(s: State, q: Request, status: Status) {
    && status.Ok?
    && match q
       case Creates(_) => true
       case Writes(_, _, _) => true
       case SetsSize(key, n) => if Pending(s.slots, key) then n > |ImageAt(s.slots, key).Content()| else n == 0
       case _ => false
  }

  /** Accounts stay true unless a store failed or strayed; and after a request that was admitted
      everything pending for its dataset fits, if its accounts are true. */
  ghost predicate Counts(s: State, q: Request, status: Status, t: State, fate: nat -> Fate) {
    && t.dcbs == s.dcbs
    && (AllCounted(s.slots, s.dcbs) && !Misstores(s, q, status, fate) ==> AllCounted(t.slots, t.dcbs))
    && (Admits(s, q, status) ==> SpaceFor(t.slots, t.dcbs, t.dscb, q.key))
  }

  // ----- Images ---------------------------------------------------------------------------

  /** The image of `k` may stop being sound: CREATE over a spilled member leaves its scratch file behind
      it, and so may a cut its last block. */
  ghost predicate Unsettles(s: State, q: Request, fate: nat -> Fate, k: Key) {
    match q
    case Creates(key) => key == k && s.Empties(fate, key) && s.Abandons(key)
    case SetsSize(key, n) => key == k && s.CutsRagged(key, n)
    case _ => false
  }

  /** SETATTR to nothing of a member that holds something. */
  ghost predicate Clears(s: State, q: Request) {
    q.SetsSize? && q.n == 0 && ImageAt(s.slots, q.key).Content() != []
  }

  /** Sound images stay so unless the request unsettles them, and one that it clears becomes so. */
  ghost predicate Steadies(s: State, q: Request, t: State, fate: nat -> Fate) {
    && (forall k | !Unsettles(s, q, fate, k) :: SoundFor(s.slots, k) ==> SoundFor(t.slots, k))
    && (Clears(s, q) ==> SoundFor(t.slots, q.key))
  }

  /** A store into a sound image never strays. */
  lemma SoundNeverStrays(s: State, q: Request, status: Status)
    requires q.Writes? || q.SetsSize? ==> SoundFor(s.slots, q.key)
    ensures !Strays(s, q, status)
  {
  }

  ghost predicate StepOf(s: State, q: Request, status: Status, t: State, fate: nat -> Fate) {
    && (TrueAt(s) ==> Between(s, Shown(s), q, status, t, Shown(t), fate))
    && Counts(s, q, status, t, fate)
    && Steadies(s, q, t, fate)
  }

  /** Clean slots are true. */
  ghost predicate TrueAt(s: State) {
    AllTrue(s.slots, s.disk)
  }

  /** What a client sees of a member in a state. */
  ghost function ViewAt(s: State, key: Key): Option<seq<byte>> {
    Visible(s.slots, s.disk, key)
  }

  /** What clients see. */
  ghost function Shown(s: State): (f: Files)
    ensures forall k :: At(f, k) == ViewAt(s, k)
  {
    imap k: Key | ViewAt(s, k).Some? :: ViewAt(s, k).value
  }

  lemma ViewIs(pool: Pool)
    ensures forall k :: ViewAt(pool.Now(), k) == pool.View(k)
  {
  }

  lemma SettledIsTrue(pool: Pool)
    ensures pool.Settled() <==> AllTrue(pool.slots, pool.disk)
  {
    if pool.Settled() {
      forall i | 0 <= i < |pool.slots|
        ensures TrueSlot(pool.slots[i], pool.disk)
      {
        assert pool.SettledAt(i);
      }
    }
  }

  /** What CREATE makes of one state, as another shows it. */
  ghost predicate CreateShows(s: State, key: Key, status: Status, t: State, fate: nat -> Fate) {
    && t.dcbs == s.dcbs && (AllCounted(s.slots, s.dcbs) ==> AllCounted(t.slots, s.dcbs))
    && (status.Ok? ==> SpaceFor(t.slots, s.dcbs, t.dscb, key))
    && ViewAt(t, key) == (if status.Ok? || s.Empties(fate, key) then Some([]) else ViewAt(s, key))
    && (TrueAt(s) && (status.Ok? || !s.Empties(fate, key) || !s.CleanBytes(key)) ==> TrueAt(t))
    && (TrueAt(s) && t.lost == s.lost ==> forall k | k != key :: ViewAt(t, k) == ViewAt(s, k))
    && (forall k | k != key || !(s.Empties(fate, key) && s.Abandons(key)) :: SoundFor(s.slots, k) ==> SoundFor(t.slots, k))
  }

  lemma CreateSteps(s: State, key: Key, status: Status, t: State, fate: nat -> Fate)
    requires Distinct(s.slots) && CreateShows(s, key, status, t, fate)
    ensures StepOf(s, Creates(key), status, t, fate)
  {
    VisibleIsImage(s.slots, s.disk, key);
  }

  method ServeCreate(pool: Pool, key: Key) returns (status: Status)
    requires pool.Valid()
    modifies pool, pool.full
    ensures pool.Valid() && pool.lost >= old(pool.lost)
    ensures forall k | k != key && old(pool.View(k)).None? :: pool.View(k).None?
    ensures StepOf(old(pool.Now()), Creates(key), status, pool.Now(), pool.fate)
  {
    ghost var s := pool.Now();
    status := CreateOf(pool, key);
    CreateSteps(s, key, status, pool.Now(), pool.fate);
  }

  method CreateOf(pool: Pool, key: Key) returns (status: Status)
    requires pool.Valid()
    modifies pool, pool.full
    ensures pool.Valid() && pool.lost >= old(pool.lost)
    ensures forall k | k != key && old(pool.View(k)).None? :: pool.View(k).None?
    ensures CreateShows(old(pool.Now()), key, status, pool.Now(), pool.fate)
  {
    SettledIsTrue(pool);
    ViewIs(pool);
    status := pool.Create(key);
    ViewIs(pool);
    SettledIsTrue(pool);
  }

  /** What WRITE makes of one state, as another shows it. */
  ghost predicate WriteShows(s: State, key: Key, data: seq<byte>, off: nat, status: Status, t: State, fate: nat -> Fate) {
    var base := s.Base(key, off, |data|);
    && t.dcbs == s.dcbs
    && (status.Ok? ==> (Pending(s.slots, key) || off == 0) && SpaceFor(t.slots, s.dcbs, t.dscb, key))
    && (status.Ok? && StoresExactly(base, off, data) ==> ViewAt(t, key) == Some(Splice(base.Content(), off, data)))
    && (!status.Ok? ==> ViewAt(t, key) == if s.LeavesEmpty(fate, key, off, |data|) then Some([]) else ViewAt(s, key))
    && (TrueAt(s) && (status.Ok? || !s.LeavesEmpty(fate, key, off, |data|) || OnDisk(s.disk, key) == Some([])) ==> TrueAt(t))
    && (TrueAt(s) && t.lost == s.lost ==> forall k | k != key :: ViewAt(t, k) == ViewAt(s, k))
    && (AllCounted(s.slots, s.dcbs) && (if status.Ok? then StoresExactly(base, off, data) else fate(s.tick).stores) ==>
          AllCounted(t.slots, s.dcbs))
    && (forall k :: SoundFor(s.slots, k) ==> SoundFor(t.slots, k))
  }

  lemma WriteSteps(s: State, key: Key, data: seq<byte>, off: nat, status: Status, t: State, fate: nat -> Fate)
    requires Distinct(s.slots) && WriteShows(s, key, data, off, status, t, fate)
    ensures StepOf(s, Writes(key, data, off), status, t, fate)
  {
    VisibleIsImage(s.slots, s.disk, key);
  }

  method ServeWrite(pool: Pool, key: Key, data: seq<byte>, off: nat) returns (status: Status)
    requires pool.Valid() && Writes(key, data, off).Valid()
    modifies pool, pool.full
    ensures pool.Valid() && pool.lost >= old(pool.lost)
    ensures forall k | k != key && old(pool.View(k)).None? :: pool.View(k).None?
    ensures StepOf(old(pool.Now()), Writes(key, data, off), status, pool.Now(), pool.fate)
  {
    ghost var s := pool.Now();
    status := WriteOf(pool, key, data, off);
    WriteSteps(s, key, data, off, status, pool.Now(), pool.fate);
  }

  method WriteOf(pool: Pool, key: Key, data: seq<byte>, off: nat) returns (status: Status)
    requires pool.Valid() && Writes(key, data, off).Valid()
    modifies pool, pool.full
    ensures pool.Valid() && pool.lost >= old(pool.lost)
    ensures forall k | k != key && old(pool.View(k)).None? :: pool.View(k).None?
    ensures WriteShows(old(pool.Now()), key, data, off, status, pool.Now(), pool.fate)
  {
    SettledIsTrue(pool);
    ViewIs(pool);
    status := pool.Write(key, data, off);
    ViewIs(pool);
    SettledIsTrue(pool);
  }

  /** What SETATTR of a size makes of one state, as another shows it. */
  ghost predicate SizeShows(s: State, key: Key, n: nat, status: Status, t: State, fate: nat -> Fate) {
    var base := s.SizeBase(key, n);
    && t.dcbs == s.dcbs
    && (status.Ok? && (n == 0 || Pending(s.slots, key)) && SizesExactly(base, n) ==> ViewAt(t, key) == Some(Resize(base.Content(), n)))
    && (status.Ok? && n != 0 && !Pending(s.slots, key) ==> key in s.disk && |s.disk[key]| <= n)
    && (status.Ok? && (if Pending(s.slots, key) then n > |base.Content()| else n == 0) ==> SpaceFor(t.slots, s.dcbs, t.dscb, key))
    && (!status.Ok? || (n != 0 && !Pending(s.slots, key)) ==> ViewAt(t, key) == ViewAt(s, key))
    && (TrueAt(s) ==> TrueAt(t))
    && (TrueAt(s) && t.lost == s.lost ==> forall k | k != key :: ViewAt(t, k) == ViewAt(s, k))
    && (AllCounted(s.slots, s.dcbs) && (if status.Ok? then SizesExactly(base, n) else fate(s.tick).stores) ==>
          AllCounted(t.slots, s.dcbs))
    && (forall k | k != key || !s.CutsRagged(key, n) :: SoundFor(s.slots, k) ==> SoundFor(t.slots, k))
    && (n == 0 && ImageAt(s.slots, key).Content() != [] ==> SoundFor(t.slots, key))
  }

  lemma SizeSteps(s: State, key: Key, n: nat, status: Status, t: State, fate: nat -> Fate)
    requires Distinct(s.slots) && SizeShows(s, key, n, status, t, fate)
    ensures StepOf(s, SetsSize(key, n), status, t, fate)
  {
    VisibleIsImage(s.slots, s.disk, key);
    assert s.SizeBase(key, n).Content() == ImageAt(s.slots, key).Content();
    assert Resize(BytesAt(Shown(s), key), 0) == [] == Resize([], 0);
  }

  method ServeSize(pool: Pool, key: Key, n: nat) returns (status: Status)
    requires pool.Valid()
    modifies pool, pool.full
    ensures pool.Valid() && pool.lost >= old(pool.lost)
    ensures forall k | k != key && old(pool.View(k)).None? :: pool.View(k).None?
    ensures StepOf(old(pool.Now()), SetsSize(key, n), status, pool.Now(), pool.fate)
  {
    ghost var s := pool.Now();
    status := SizeOf(pool, key, n);
    SizeSteps(s, key, n, status, pool.Now(), pool.fate);
  }

  method SizeOf(pool: Pool, key: Key, n: nat) returns (status: Status)
    requires pool.Valid()
    modifies pool, pool.full
    ensures pool.Valid() && pool.lost >= old(pool.lost)
    ensures forall k | k != key && old(pool.View(k)).None? :: pool.View(k).None?
    ensures SizeShows(old(pool.Now()), key, n, status, pool.Now(), pool.fate)
  {
    SettledIsTrue(pool);
    ViewIs(pool);
    status := pool.Truncate(key, n);
    ViewIs(pool);
    SettledIsTrue(pool);
  }

  lemma CommitBetween(s: State, key: Key, status: Status, t: State, fate: nat -> Fate)
    requires !s.Forsakes(fate, key) ==> TrueAt(t)
    requires status.Ok? ==> OnDisk(t.disk, key) == ViewAt(t, key)
    requires forall k :: ViewAt(t, k) == ViewAt(s, k)
    ensures Between(s, Shown(s), Commits(key), status, t, Shown(t), fate)
  {
  }

  method ServeCommit(pool: Pool, key: Key) returns (status: Status)
    requires pool.Valid()
    modifies pool, pool.full
    ensures pool.Valid() && pool.lost >= old(pool.lost)
    ensures forall k :: pool.View(k) == old(pool.View(k))
    ensures StepOf(old(pool.Now()), Commits(key), status, pool.Now(), pool.fate)
  {
    SettledIsTrue(pool);
    ghost var s := pool.Now();
    ViewIs(pool);
    status := pool.Commit(key);
    ViewIs(pool);
    SettledIsTrue(pool);
    if TrueAt(s) {
      CommitBetween(s, key, status, pool.Now(), pool.fate);
    }
  }

  lemma RemoveBetween(s: State, key: Key, status: Status, t: State, fate: nat -> Fate)
    requires TrueAt(t)
    requires ViewAt(t, key) == if status.Ok? then None else OnDisk(s.disk, key)
    requires forall k | k != key :: ViewAt(t, k) == ViewAt(s, k)
    ensures Between(s, Shown(s), Removes(key), status, t, Shown(t), fate)
  {
  }

  method ServeRemove(pool: Pool, key: Key) returns (status: Status)
    requires pool.Valid()
    modifies pool, pool.full
    ensures pool.Valid() && pool.lost >= old(pool.lost)
    ensures forall k | old(pool.View(k)).None? :: pool.View(k).None?
    ensures StepOf(old(pool.Now()), Removes(key), status, pool.Now(), pool.fate)
  {
    SettledIsTrue(pool);
    ghost var s := pool.Now();
    ViewIs(pool);
    status := pool.Remove(key);
    ViewIs(pool);
    SettledIsTrue(pool);
    if TrueAt(s) {
      RemoveBetween(s, key, status, pool.Now(), pool.fate);
    }
  }

  /** What RENAME makes of one state, as another shows it. */
  ghost predicate RenameShows(s: State, from: Key, to: Key, status: Status, t: State, fate: nat -> Fate) {
    && t.dcbs == s.dcbs && (AllCounted(s.slots, s.dcbs) ==> AllCounted(t.slots, s.dcbs))
    && (TrueAt(s) && (from.dsname != to.dsname || !s.Forsakes(fate, from)) ==> TrueAt(t))
    && (TrueAt(s) && status.Ok? ==> ViewAt(t, to) == ViewAt(s, from) && (from != to ==> ViewAt(t, from).None?))
    && (!status.Ok? && from != to ==>
          && ViewAt(t, from) == ViewAt(s, from)
          && ViewAt(t, to) == if from.dsname == to.dsname && s.Commits(fate, from) then OnDisk(s.disk, to) else ViewAt(s, to))
    && (TrueAt(s) && !status.Ok? && from == to ==> ViewAt(t, to) == ViewAt(s, to))
    && (forall k | k != from && k != to :: ViewAt(t, k) == ViewAt(s, k))
    && (forall k :: SoundFor(s.slots, k) ==> SoundFor(t.slots, k))
  }

  lemma RenameSteps(s: State, from: Key, to: Key, status: Status, t: State, fate: nat -> Fate)
    requires RenameShows(s, from, to, status, t, fate)
    ensures StepOf(s, Renames(from, to), status, t, fate)
  {
  }

  method ServeRename(pool: Pool, from: Key, to: Key) returns (status: Status)
    requires pool.Valid()
    modifies pool, pool.full
    ensures pool.Valid() && pool.lost >= old(pool.lost)
    ensures forall k | k != to && old(pool.View(k)).None? :: pool.View(k).None?
    ensures StepOf(old(pool.Now()), Renames(from, to), status, pool.Now(), pool.fate)
  {
    ghost var s := pool.Now();
    status := RenameOf(pool, from, to);
    RenameSteps(s, from, to, status, pool.Now(), pool.fate);
  }

  method RenameOf(pool: Pool, from: Key, to: Key) returns (status: Status)
    requires pool.Valid()
    modifies pool, pool.full
    ensures pool.Valid() && pool.lost >= old(pool.lost)
    ensures forall k | k != to && old(pool.View(k)).None? :: pool.View(k).None?
    ensures RenameShows(old(pool.Now()), from, to, status, pool.Now(), pool.fate)
  {
    SettledIsTrue(pool);
    SettledDurable(pool, from);
    ViewIs(pool);
    status := pool.Rename(from, to);
    ViewIs(pool);
    SettledIsTrue(pool);
  }

  /** Where clean slots are true, what COMMIT leaves on disk is what clients see. */
  lemma SettledDurable(pool: Pool, key: Key)
    requires pool.Valid()
    ensures pool.Settled() ==> pool.Now().Durable(key) == pool.View(key)
  {
    if pool.Settled() && Pending(pool.slots, key) && !Dirty(pool.slots, key) {
      var i :| 0 <= i < |pool.slots| && Holds(pool.slots[i], key);
      VisibleAt(pool.slots, pool.disk, i);
      assert pool.SettledAt(i);
    }
  }

  method ServeSweep(pool: Pool, all: bool)
    requires pool.Valid()
    modifies pool, pool.full
    ensures pool.Valid() && pool.lost >= old(pool.lost)
    ensures forall k | old(pool.View(k)).None? :: pool.View(k).None?
    ensures StepOf(old(pool.Now()), if all then Shutdown else IdleSweep, Ok, pool.Now(), pool.fate)
  {
    SettledIsTrue(pool);
    ghost var s := pool.Now();
    ViewIs(pool);
    pool.Sweep(all);
    ViewIs(pool);
    SettledIsTrue(pool);
    assert TrueAt(s) && pool.lost == s.lost ==> Same(Shown(s), Shown(pool.Now()));
  }

  method ServeTimes(pool: Pool, key: Key, wanted: bool)
    requires pool.Valid()
    modifies pool, pool.full
    ensures pool.Valid() && pool.lost == old(pool.lost)
    ensures forall k :: pool.View(k) == old(pool.View(k))
    ensures StepOf(old(pool.Now()), SetsTimes(key, wanted), Ok, pool.Now(), pool.fate)
  {
    SettledIsTrue(pool);
    pool.TouchStats(key, wanted);
    SettledIsTrue(pool);
  }

  method ServeRead(pool: Pool, key: Key, off: nat, count: nat)
    requires pool.Valid()
    modifies pool, pool.full
    ensures pool.Valid() && pool.lost == old(pool.lost)
    ensures forall k :: pool.View(k) == old(pool.View(k))
    ensures StepOf(old(pool.Now()), Reads(key, off, count), Ok, pool.Now(), pool.fate)
  {
    SettledIsTrue(pool);
    ghost var s := pool.Now();
    ViewIs(pool);
    var _, _, _ := pool.ReadPending(key, off, count);
    ViewIs(pool);
    SettledIsTrue(pool);
    assert Same(Shown(s), Shown(pool.Now()));
  }

  /** One request: the pool stays sound, a member that does not exist is not brought into being
      by a request that does not ask for it, and the step is as it should be. */
  method Serve(pool: Pool, q: Request) returns (status: Status)
    requires pool.Valid() && q.Valid()
    modifies pool, pool.full
    ensures pool.Valid() && pool.lost >= old(pool.lost)
    ensures forall k | !Makes(q, k) && old(pool.View(k)).None? :: pool.View(k).None?
    ensures StepOf(old(pool.Now()), q, status, pool.Now(), pool.fate)
  {
    status := Ok;
    match q {
      case Creates(key) => status := ServeCreate(pool, key);
      case Writes(key, data, off) => status := ServeWrite(pool, key, data, off);
      case SetsSize(key, n) => status := ServeSize(pool, key, n);
      case SetsTimes(key, wanted) => ServeTimes(pool, key, wanted);
      case Reads(key, off, count) => ServeRead(pool, key, off, count);
      case Commits(key) => status := ServeCommit(pool, key);
      case Removes(key) => status := ServeRemove(pool, key);
      case Renames(from, to) => status := ServeRename(pool, from, to);
      case IdleSweep => ServeSweep(pool, false);
      case Shutdown => ServeSweep(pool, true);
    }
  }

  // ----- Runs -----------------------------------------------------------------------------

  /** After any run from an empty pool, with any failures along the way, no two slots share a
      key and, when releases work, the enqueues and allocations held are exactly those of the
      members pending. */
  method Run(requests: seq<Request>, fate: nat -> Fate, dcbs: map<string, Dcb>, disk: map<Key, seq<byte>>)
    returns (slots: seq<Slot>, enqs: set<Key>, allocs: set<Key>)
    requires forall q | q in requests :: q.Valid()
    ensures Distinct(slots)
    ensures (forall n: nat :: fate(n).unallocates.Done? && fate(n).dequeues.Done?) ==>
              enqs == allocs == UsedKeys(slots)
  {
    var pool := new Pool(fate, dcbs, disk);
    for k := 0 to |requests|
      invariant pool.Valid() && fresh(pool) && fresh(pool.full) && pool.fate == fate
    {
      var _ := Serve(pool, requests[k]);
    }
    if pool.ReleasesWork() {
      pool.HeldExactly();
    }
    slots, enqs, allocs := pool.slots, pool.enqs, pool.allocs;
  }

  /** A successful REMOVE is never undone by a later flush, sweep or eviction, whatever fails:
      the member stays away until a request asks for it again. */
  method RemovedStaysRemoved(pool: Pool, key: Key, requests: seq<Request>) returns (status: Status)
    requires pool.Valid()
    requires forall q | q in requests :: q.Valid() && !Makes(q, key)
    modifies pool, pool.full
    ensures pool.Valid()
    ensures status.Ok? ==> pool.View(key).None?
  {
    status := pool.Remove(key);
    for k := 0 to |requests|
      invariant pool.Valid() && (status.Ok? ==> pool.View(key).None?)
    {
      var _ := Serve(pool, requests[k]);
    }
  }

  /** A run: what the pool was before each request, and what each was told. */
  ghost predicate Trace(trace: seq<State>, requests: seq<Request>, statuses: seq<Status>, fate: nat -> Fate) {
    && |statuses| == |trace| - 1 <= |requests|
    && forall k | 0 <= k < |statuses| :: StepAt(trace, requests, statuses, fate, k)
  }

  ghost predicate StepAt(trace: seq<State>, requests: seq<Request>, statuses: seq<Status>, fate: nat -> Fate, k: nat)
    requires k < |statuses| <= |requests| && |statuses| < |trace|
  {
    StepOf(trace[k], requests[k], statuses[k], trace[k + 1], fate)
  }

  /** None of the requests from `m` up to `n` spoiled a clean slot. */
  ghost predicate Unspoiled(trace: seq<State>, requests: seq<Request>, statuses: seq<Status>, fate: nat -> Fate, m: nat, n: nat)
    requires n <= |statuses| <= |requests| && |statuses| < |trace|
  {
    forall k | m <= k < n :: !Spoils(trace[k], requests[k], statuses[k], fate)
  }

  /** Request `k` disturbed nothing, and kept every member. */
  ghost predicate Smooth(trace: seq<State>, requests: seq<Request>, statuses: seq<Status>, fate: nat -> Fate, k: nat)
    requires k < |statuses| <= |requests| && |statuses| < |trace|
  {
    !Disturbs(trace[k], requests[k], statuses[k], fate) && Keeps(trace[k], requests[k], trace[k + 1], fate)
  }

  ghost predicate Undisturbed(trace: seq<State>, requests: seq<Request>, statuses: seq<Status>, fate: nat -> Fate, m: nat, n: nat)
    requires n <= |statuses| <= |requests| && |statuses| < |trace|
  {
    forall k | m <= k < n :: Smooth(trace, requests, statuses, fate, k)
  }

  /** None of them failed to store, or strayed. */
  ghost predicate Stored(trace: seq<State>, requests: seq<Request>, statuses: seq<Status>, fate: nat -> Fate, m: nat, n: nat)
    requires n <= |statuses| <= |requests| && |statuses| < |trace|
  {
    forall k | m <= k < n :: !Misstores(trace[k], requests[k], statuses[k], fate)
  }

  /** None of them unsettled the image of `key`. */
  ghost predicate Undisplaced(trace: seq<State>, requests: seq<Request>, fate: nat -> Fate, key: Key, m: nat, n: nat)
    requires n <= |requests| && n <= |trace|
  {
    forall k | m <= k < n :: !Unsettles(trace[k], requests[k], fate, key)
  }

  /** None of them unsettled any image. */
  ghost predicate Calm(trace: seq<State>, requests: seq<Request>, fate: nat -> Fate, m: nat, n: nat)
    requires n <= |requests| && n <= |trace|
  {
    forall key :: Undisplaced(trace, requests, fate, key, m, n)
  }

  /** None of them strayed. */
  ghost predicate Straight(trace: seq<State>, requests: seq<Request>, statuses: seq<Status>, m: nat, n: nat)
    requires n <= |statuses| <= |requests| && |statuses| < |trace|
  {
    forall k | m <= k < n :: !Strays(trace[k], requests[k], statuses[k])
  }

  /** Every image is sound. */
  ghost predicate AllSound(s: State) {
    forall k :: SoundFor(s.slots, k)
  }

  /** The first `n` requests were all done. */
  predicate AllDone(statuses: seq<Status>, n: nat)
    requires n <= |statuses|
  {
    forall k | 0 <= k < n :: statuses[k].Ok?
  }

  ghost predicate NextIn(trace: seq<State>, requests: seq<Request>, statuses: seq<Status>, n: nat, f: Files, g: Files)
    requires 0 < n <= |statuses| <= |requests| && |statuses| < |trace|
  {
    Next(trace[n - 1], f, requests[n - 1], statuses[n - 1], g)
  }

  /** The requests from `m` up to `n` lead a map from members to bytes from `f` to `g`: those done as
      they mean, those refused not at all. */
  ghost predicate Leads(trace: seq<State>, requests: seq<Request>, statuses: seq<Status>, f: Files, m: nat, n: nat, g: Files)
    requires m <= n <= |statuses| <= |requests| && |statuses| < |trace|
    decreases n
  {
    if n == m then Same(f, g)
    else
      exists h :: Leads(trace, requests, statuses, f, m, n - 1, h) && NextIn(trace, requests, statuses, n, h, g)
  }

  /** From any point at which clean slots are true, they are as long as nothing spoils one. */
  lemma {:induction false} TraceTrue(
    trace: seq<State>, requests: seq<Request>, statuses: seq<Status>, fate: nat -> Fate, m: nat, n: nat)
    requires Trace(trace, requests, statuses, fate) && m <= n <= |statuses|
    requires TrueAt(trace[m]) && Unspoiled(trace, requests, statuses, fate, m, n)
    ensures TrueAt(trace[n])
    decreases n
  {
    if m < n {
      TraceTrue(trace, requests, statuses, fate, m, n - 1);
      assert StepAt(trace, requests, statuses, fate, n - 1);
    }
  }

  /** Each request from `m` up to `n` led what clients saw on to what they saw next. */
  ghost predicate AllNext(trace: seq<State>, requests: seq<Request>, statuses: seq<Status>, m: nat, n: nat)
    requires n <= |statuses| <= |requests| && |statuses| < |trace|
  {
    forall k | m < k <= n :: Led(trace, requests, statuses, k)
  }

  ghost predicate Led(trace: seq<State>, requests: seq<Request>, statuses: seq<Status>, n: nat)
    requires 0 < n <= |statuses| <= |requests| && |statuses| < |trace|
  {
    NextIn(trace, requests, statuses, n, Shown(trace[n - 1]), Shown(trace[n]))
  }

  lemma {:induction false} NextLeads(trace: seq<State>, requests: seq<Request>, statuses: seq<Status>, m: nat, n: nat)
    requires m <= n <= |statuses| <= |requests| && |statuses| < |trace| && AllNext(trace, requests, statuses, m, n)
    ensures Leads(trace, requests, statuses, Shown(trace[m]), m, n, Shown(trace[n]))
    decreases n
  {
    if m < n {
      NextLeads(trace, requests, statuses, m, n - 1);
      LeadsOn(trace, requests, statuses, Shown(trace[m]), m, n);
    }
  }

  lemma LeadsOn(trace: seq<State>, requests: seq<Request>, statuses: seq<Status>, f: Files, m: nat, n: nat)
    requires m < n <= |statuses| <= |requests| && |statuses| < |trace|
    requires Leads(trace, requests, statuses, f, m, n - 1, Shown(trace[n - 1])) && Led(trace, requests, statuses, n)
    ensures Leads(trace, requests, statuses, f, m, n, Shown(trace[n]))
  {
    assert NextIn(trace, requests, statuses, n, Shown(trace[n - 1]), Shown(trace[n]));
  }

  /** From any such point the pool is a map from members to bytes as long as nothing is disturbed. */
  lemma TraceLeads(
    trace: seq<State>, requests: seq<Request>, statuses: seq<Status>, fate: nat -> Fate, m: nat, n: nat)
    requires Trace(trace, requests, statuses, fate) && m <= n <= |statuses|
    requires TrueAt(trace[m]) && Undisturbed(trace, requests, statuses, fate, m, n)
    ensures Leads(trace, requests, statuses, Shown(trace[m]), m, n, Shown(trace[n]))
  {
    forall k | m < k <= n
      ensures Led(trace, requests, statuses, k)
    {
      SmoothIsUnspoiled(trace, requests, statuses, fate, m, k - 1);
      TraceTrue(trace, requests, statuses, fate, m, k - 1);
      SmoothStep(trace, requests, statuses, fate, k);
    }
    NextLeads(trace, requests, statuses, m, n);
  }

  lemma SmoothIsUnspoiled(
    trace: seq<State>, requests: seq<Request>, statuses: seq<Status>, fate: nat -> Fate, m: nat, n: nat)
    requires n <= |statuses| <= |requests| && |statuses| < |trace| && Undisturbed(trace, requests, statuses, fate, m, n)
    ensures Unspoiled(trace, requests, statuses, fate, m, n)
  {
    forall k | m <= k < n
      ensures !Spoils(trace[k], requests[k], statuses[k], fate)
    {
      assert Smooth(trace, requests, statuses, fate, k);
    }
  }

  lemma SmoothStep(trace: seq<State>, requests: seq<Request>, statuses: seq<Status>, fate: nat -> Fate, n: nat)
    requires Trace(trace, requests, statuses, fate) && 0 < n <= |statuses|
    requires TrueAt(trace[n - 1]) && Smooth(trace, requests, statuses, fate, n - 1)
    ensures Led(trace, requests, statuses, n)
  {
    assert StepAt(trace, requests, statuses, fate, n - 1);
  }

  /** From any point at which accounts are true, they are as long as stores work. */
  lemma {:induction false} TraceCounted(
    trace: seq<State>, requests: seq<Request>, statuses: seq<Status>, fate: nat -> Fate, m: nat, n: nat)
    requires Trace(trace, requests, statuses, fate) && m <= n <= |statuses|
    requires AllCounted(trace[m].slots, trace[m].dcbs) && Stored(trace, requests, statuses, fate, m, n)
    ensures AllCounted(trace[n].slots, trace[n].dcbs)
    decreases n
  {
    if m < n {
      TraceCounted(trace, requests, statuses, fate, m, n - 1);
      assert StepAt(trace, requests, statuses, fate, n - 1);
    }
  }

  /** From any point at which an image is sound, it is as long as no request unsettles it. */
  lemma {:induction false} TraceSound(
    trace: seq<State>, requests: seq<Request>, statuses: seq<Status>, fate: nat -> Fate, key: Key, m: nat, n: nat)
    requires Trace(trace, requests, statuses, fate) && m <= n <= |statuses|
    requires SoundFor(trace[m].slots, key) && Undisplaced(trace, requests, fate, key, m, n)
    ensures SoundFor(trace[n].slots, key)
    decreases n
  {
    if m < n {
      TraceSound(trace, requests, statuses, fate, key, m, n - 1);
      assert StepAt(trace, requests, statuses, fate, n - 1);
    }
  }

  /** So no request strays on it. */
  lemma TraceExact(
    trace: seq<State>, requests: seq<Request>, statuses: seq<Status>, fate: nat -> Fate, key: Key, m: nat, n: nat)
    requires Trace(trace, requests, statuses, fate) && m <= n < |statuses|
    requires SoundFor(trace[m].slots, key) && Undisplaced(trace, requests, fate, key, m, n)
    ensures (requests[n].Writes? || requests[n].SetsSize?) && requests[n].key == key ==>
              !Strays(trace[n], requests[n], statuses[n])
  {
    TraceSound(trace, requests, statuses, fate, key, m, n);
    if (requests[n].Writes? || requests[n].SetsSize?) && requests[n].key == key {
      SoundNeverStrays(trace[n], requests[n], statuses[n]);
    }
  }

  lemma CalmIsStraight(trace: seq<State>, requests: seq<Request>, statuses: seq<Status>, fate: nat -> Fate, m: nat, n: nat)
    requires Trace(trace, requests, statuses, fate) && m <= n <= |statuses|
    requires AllSound(trace[m]) && Calm(trace, requests, fate, m, n)
    ensures Straight(trace, requests, statuses, m, n)
  {
    forall k | m <= k < n
      ensures !Strays(trace[k], requests[k], statuses[k])
    {
      if requests[k].Writes? || requests[k].SetsSize? {
        assert Undisplaced(trace, requests, fate, requests[k].key, m, n);
        TraceExact(trace, requests, statuses, fate, requests[k].key, m, k);
      }
    }
  }

  /** Where every flush saves its member, and requests that do not stray are done, nothing disturbs. */
  lemma DoneIsSmooth(trace: seq<State>, requests: seq<Request>, statuses: seq<Status>, fate: nat -> Fate, n: nat)
    requires n <= |statuses| <= |requests| && |statuses| < |trace|
    requires (forall i: nat :: fate(i).stow.Stowed?) && AllDone(statuses, n) && Straight(trace, requests, statuses, 0, n)
    requires forall k | 0 <= k < |trace| :: trace[k].lost == 0 && FullTable.Forgotten(trace[k].marks)
    ensures Undisturbed(trace, requests, statuses, fate, 0, n) && Stored(trace, requests, statuses, fate, 0, n)
  {
    forall k | 0 <= k < n
      ensures Smooth(trace, requests, statuses, fate, k)
    {
      assert trace[k + 1].lost == 0 && !Strays(trace[k], requests[k], statuses[k]) && statuses[k].Ok?;
    }
  }

  /** As long as stores work, every request that was admitted leaves the dataset with the space
      that the layouts of its pending members take. */
  lemma TraceFits(
    trace: seq<State>, requests: seq<Request>, statuses: seq<Status>, fate: nat -> Fate, m: nat, n: nat)
    requires Trace(trace, requests, statuses, fate) && m <= n < |statuses|
    requires AllCounted(trace[m].slots, trace[m].dcbs) && Stored(trace, requests, statuses, fate, m, n + 1)
    requires Admits(trace[n], requests[n], statuses[n])
    ensures Fits(trace[n + 1].slots, trace[n + 1].dcbs, trace[n + 1].dscb, requests[n].key)
  {
    TraceCounted(trace, requests, statuses, fate, m, n + 1);
    assert StepAt(trace, requests, statuses, fate, n);
    CountedFits(trace[n + 1].slots, trace[n + 1].dcbs, trace[n + 1].dscb, requests[n].key);
  }

  lemma TraceOn(trace: seq<State>, requests: seq<Request>, statuses: seq<Status>, fate: nat -> Fate, status: Status, t: State)
    requires Trace(trace, requests, statuses, fate) && |statuses| < |requests|
    requires StepOf(trace[|statuses|], requests[|statuses|], status, t, fate)
    ensures Trace(trace + [t], requests, statuses + [status], fate)
  {
    var ts, ss := trace + [t], statuses + [status];
    forall k | 0 <= k < |ss|
      ensures StepAt(ts, requests, ss, fate, k)
    {
      if k < |statuses| {
        assert StepAt(trace, requests, statuses, fate, k);
      }
    }
  }

  /** Between any two points of the run, from one at which clean slots are true and with nothing
      disturbed on the way, what clients see is what the requests mean. */
  ghost predicate ActsAsFiles(trace: seq<State>, requests: seq<Request>, statuses: seq<Status>, fate: nat -> Fate)
    requires |statuses| == |requests| == |trace| - 1
  {
    forall m, n | 0 <= m <= n <= |requests| && TrueAt(trace[m]) && Undisturbed(trace, requests, statuses, fate, m, n) ::
      Leads(trace, requests, statuses, Shown(trace[m]), m, n, Shown(trace[n]))
  }

  /** As long as nothing spoiled a clean slot, clean slots are true and a COMMIT that is done has its
      member on disk. */
  ghost predicate StaysDurable(trace: seq<State>, requests: seq<Request>, statuses: seq<Status>, fate: nat -> Fate)
    requires |statuses| == |requests| == |trace| - 1
  {
    forall m, n | 0 <= m <= n <= |requests| && TrueAt(trace[m]) && Unspoiled(trace, requests, statuses, fate, m, n) ::
      && TrueAt(trace[n])
      && (n < |requests| && requests[n].Commits? && statuses[n].Ok? ==>
            OnDisk(trace[n + 1].disk, requests[n].key) == At(Shown(trace[n + 1]), requests[n].key))
  }

  /** As long as stores work, every account is true to its member, and every request that was
      admitted leaves everything pending for its dataset within the space. */
  ghost predicate StaysInSpace(trace: seq<State>, requests: seq<Request>, statuses: seq<Status>, fate: nat -> Fate)
    requires |statuses| == |requests| == |trace| - 1
  {
    forall m, n | 0 <= m <= n <= |requests| && AllCounted(trace[m].slots, trace[m].dcbs) && Stored(trace, requests, statuses, fate, m, n) ::
      && AllCounted(trace[n].slots, trace[n].dcbs)
      && (n > m && Admits(trace[n - 1], requests[n - 1], statuses[n - 1]) ==>
            Fits(trace[n].slots, trace[n].dcbs, trace[n].dscb, requests[n - 1].key))
  }

  /** Between any two points of the run, from one at which the image of a member is sound and with no
      request on the way that unsettles it, none strays on it. */
  ghost predicate StaysExact(trace: seq<State>, requests: seq<Request>, statuses: seq<Status>, fate: nat -> Fate)
    requires |statuses| == |requests| == |trace| - 1
  {
    && (forall key, m, n | 0 <= m <= n < |requests| && SoundFor(trace[m].slots, key) && Undisplaced(trace, requests, fate, key, m, n) ::
          (requests[n].Writes? || requests[n].SetsSize?) && requests[n].key == key ==> !Strays(trace[n], requests[n], statuses[n]))
    && (forall m, n | 0 <= m <= n <= |requests| && AllSound(trace[m]) && Calm(trace, requests, fate, m, n) ::
          Straight(trace, requests, statuses, m, n))
  }

  /** As long as every request is done and none unsettles an image, what clients see is what the
      requests mean, every account is true, and every request that was admitted fits. */
  ghost predicate ActsPlainly(trace: seq<State>, requests: seq<Request>, statuses: seq<Status>, fate: nat -> Fate)
    requires |statuses| == |requests| == |trace| - 1
  {
    forall n | 0 <= n <= |requests| && AllDone(statuses, n) && Calm(trace, requests, fate, 0, n) ::
      && Leads(trace, requests, statuses, Shown(trace[0]), 0, n, Shown(trace[n]))
      && AllCounted(trace[n].slots, trace[n].dcbs)
      && (n > 0 && Admits(trace[n - 1], requests[n - 1], statuses[n - 1]) ==>
            Fits(trace[n].slots, trace[n].dcbs, trace[n].dscb, requests[n - 1].key))
  }

  /** Every run of requests, through every eviction, sweep, failure and refusal: it acts as a map from
      members to bytes, COMMITs are durable, and what is admitted fits, each for as long as nothing
      gets in the way of it; and images that no request unsettles stay exact. Where STOW never fails
      no flush is lost, and a run in which every request is done and none unsettles an image acts as
      a map throughout. Where STOW never abends no dataset is remembered as full. */
  method RunAsFiles(requests: seq<Request>, fate: nat -> Fate, dcbs: map<string, Dcb>, disk: map<Key, seq<byte>>)
    returns (statuses: seq<Status>, slots: seq<Slot>, after: map<Key, seq<byte>>, trace: seq<State>)
    requires forall q | q in requests :: q.Valid()
    ensures |statuses| == |requests| == |trace| - 1
    ensures trace[0] == Start(disk, dcbs) && TrueAt(trace[0])
    ensures trace[|requests|].slots == slots && trace[|requests|].disk == after
    ensures forall k | 0 <= k < |trace| :: trace[k].dcbs == dcbs
    ensures ActsAsFiles(trace, requests, statuses, fate)
    ensures StaysDurable(trace, requests, statuses, fate)
    ensures StaysInSpace(trace, requests, statuses, fate)
    ensures StaysExact(trace, requests, statuses, fate) && AllSound(trace[0])
    ensures (forall n: nat :: fate(n).stow.Stowed?) ==> ActsPlainly(trace, requests, statuses, fate)
    ensures (forall n: nat :: fate(n).stow.Stowed?) ==> forall k | 0 <= k < |trace| :: trace[k].lost == 0
    ensures (forall n: nat :: !fate(n).stow.Abends?) ==> forall k | 0 <= k < |trace| :: FullTable.Forgotten(trace[k].marks)
  {
    statuses, trace := RunTrace(requests, fate, dcbs, disk);
    slots, after := trace[|requests|].slots, trace[|requests|].disk;
    StartsWell(disk, dcbs);
    Conclude(trace, requests, statuses, fate);
    ConcludePlainly(trace, requests, statuses, fate);
  }

  /** A run from an empty pool is a trace. */
  method RunTrace(requests: seq<Request>, fate: nat -> Fate, dcbs: map<string, Dcb>, disk: map<Key, seq<byte>>)
    returns (statuses: seq<Status>, trace: seq<State>)
    requires forall q | q in requests :: q.Valid()
    ensures |statuses| == |requests| && Trace(trace, requests, statuses, fate)
    ensures trace[0] == Start(disk, dcbs) && forall k | 0 <= k < |trace| :: trace[k].dcbs == dcbs
    ensures (forall n: nat :: fate(n).stow.Stowed?) ==> forall k | 0 <= k < |trace| :: trace[k].lost == 0
    ensures (forall n: nat :: !fate(n).stow.Abends?) ==> forall k | 0 <= k < |trace| :: FullTable.Forgotten(trace[k].marks)
  {
    var pool := new Pool(fate, dcbs, disk);
    statuses, trace := [], [pool.Now()];
    for n := 0 to |requests|
      invariant pool.Valid() && fresh(pool) && fresh(pool.full) && pool.fate == fate && pool.dcbs == dcbs
      invariant Trace(trace, requests, statuses, fate) && |statuses| == n && trace[n] == pool.Now()
      invariant trace[0] == Start(disk, dcbs)
      invariant forall k | 0 <= k < |trace| :: trace[k].dcbs == dcbs
      invariant pool.StowsWork() ==> forall k | 0 <= k < |trace| :: trace[k].lost == 0
      invariant pool.NoAbends() ==> forall k | 0 <= k < |trace| :: FullTable.Forgotten(trace[k].marks)
    {
      var status := Serve(pool, requests[n]);
      TraceOn(trace, requests, statuses, fate, status, pool.Now());
      statuses, trace := statuses + [status], trace + [pool.Now()];
    }
  }

  /** The state a run begins in. */
  function Start(disk: map<Key, seq<byte>>, dcbs: map<string, Dcb>): State {
    State(seq(MAX_PENDING, _ => Free), disk, FullTable.UNUSED, {}, 0, 0, dcbs, map[])
  }

  lemma StartsWell(disk: map<Key, seq<byte>>, dcbs: map<string, Dcb>)
    ensures TrueAt(Start(disk, dcbs)) && AllSound(Start(disk, dcbs)) && AllCounted(Start(disk, dcbs).slots, dcbs)
  {
  }

  lemma Conclude(trace: seq<State>, requests: seq<Request>, statuses: seq<Status>, fate: nat -> Fate)
    requires Trace(trace, requests, statuses, fate) && |statuses| == |requests|
    ensures ActsAsFiles(trace, requests, statuses, fate)
    ensures StaysDurable(trace, requests, statuses, fate)
    ensures StaysInSpace(trace, requests, statuses, fate)
    ensures StaysExact(trace, requests, statuses, fate)
  {
    forall m, n | 0 <= m <= n <= |requests| && TrueAt(trace[m]) && Undisturbed(trace, requests, statuses, fate, m, n)
      ensures Leads(trace, requests, statuses, Shown(trace[m]), m, n, Shown(trace[n]))
    {
      TraceLeads(trace, requests, statuses, fate, m, n);
    }
    forall m, n | 0 <= m <= n <= |requests| && TrueAt(trace[m]) && Unspoiled(trace, requests, statuses, fate, m, n)
      ensures TrueAt(trace[n])
      ensures n < |requests| && requests[n].Commits? && statuses[n].Ok? ==>
                OnDisk(trace[n + 1].disk, requests[n].key) == At(Shown(trace[n + 1]), requests[n].key)
    {
      TraceTrue(trace, requests, statuses, fate, m, n);
      if n < |requests| {
        assert StepAt(trace, requests, statuses, fate, n);
      }
    }
    forall m, n | 0 <= m <= n <= |requests| && AllCounted(trace[m].slots, trace[m].dcbs) && Stored(trace, requests, statuses, fate, m, n)
      ensures AllCounted(trace[n].slots, trace[n].dcbs)
      ensures n > m && Admits(trace[n - 1], requests[n - 1], statuses[n - 1]) ==>
                Fits(trace[n].slots, trace[n].dcbs, trace[n].dscb, requests[n - 1].key)
    {
      TraceCounted(trace, requests, statuses, fate, m, n);
      if n > m && Admits(trace[n - 1], requests[n - 1], statuses[n - 1]) {
        TraceFits(trace, requests, statuses, fate, m, n - 1);
      }
    }
    ConcludeExact(trace, requests, statuses, fate);
  }

  lemma ConcludeExact(trace: seq<State>, requests: seq<Request>, statuses: seq<Status>, fate: nat -> Fate)
    requires Trace(trace, requests, statuses, fate) && |statuses| == |requests|
    ensures StaysExact(trace, requests, statuses, fate)
  {
    forall key, m, n | 0 <= m <= n < |requests| && SoundFor(trace[m].slots, key) && Undisplaced(trace, requests, fate, key, m, n)
      ensures (requests[n].Writes? || requests[n].SetsSize?) && requests[n].key == key ==> !Strays(trace[n], requests[n], statuses[n])
    {
      TraceExact(trace, requests, statuses, fate, key, m, n);
    }
    forall m, n | 0 <= m <= n <= |requests| && AllSound(trace[m]) && Calm(trace, requests, fate, m, n)
      ensures Straight(trace, requests, statuses, m, n)
    {
      CalmIsStraight(trace, requests, statuses, fate, m, n);
    }
  }

  lemma ConcludePlainly(trace: seq<State>, requests: seq<Request>, statuses: seq<Status>, fate: nat -> Fate)
    requires Trace(trace, requests, statuses, fate) && |statuses| == |requests|
    requires TrueAt(trace[0]) && AllSound(trace[0]) && AllCounted(trace[0].slots, trace[0].dcbs)
    requires (forall i: nat :: fate(i).stow.Stowed?) ==>
               forall k | 0 <= k < |trace| :: trace[k].lost == 0 && FullTable.Forgotten(trace[k].marks)
    ensures (forall i: nat :: fate(i).stow.Stowed?) ==> ActsPlainly(trace, requests, statuses, fate)
  {
    if forall i: nat :: fate(i).stow.Stowed? {
      forall n | 0 <= n <= |requests| && AllDone(statuses, n) && Calm(trace, requests, fate, 0, n)
        ensures Leads(trace, requests, statuses, Shown(trace[0]), 0, n, Shown(trace[n]))
        ensures AllCounted(trace[n].slots, trace[n].dcbs)
        ensures n > 0 && Admits(trace[n - 1], requests[n - 1], statuses[n - 1]) ==>
                  Fits(trace[n].slots, trace[n].dcbs, trace[n].dscb, requests[n - 1].key)
      {
        CalmIsStraight(trace, requests, statuses, fate, 0, n);
        DoneIsSmooth(trace, requests, statuses, fate, n);
        TraceLeads(trace, requests, statuses, fate, 0, n);
        TraceCounted(trace, requests, statuses, fate, 0, n);
        if n > 0 && Admits(trace[n - 1], requests[n - 1], statuses[n - 1]) {
          TraceFits(trace, requests, statuses, fate, 0, n - 1);
        }
      }
    }
  }

  // ----- The way a client saves a file ----------------------------------------------------

  /** An image that takes appends exactly: in memory, or on an exact scratch file, whatever that
      still holds behind the member. */
  predicate Appendable(img: Image) {
    img.Held? || img.file.Exact()
  }

  lemma AppendIsExact(img: Image, data: seq<byte>, junk: seq<byte>)
    requires img.Valid() && Appendable(img)
    ensures StoresExactly(img, |img.Content()|, data) && Appendable(Store(img, |img.Content()|, data, junk))
    ensures Splice(img.Content(), |img.Content()|, data) == img.Content() + data
  {
  }

  /** The pending bytes of `key` are `text`, dirty, on an image that takes appends. */
  ghost predicate Owes(pool: Pool, key: Key, text: seq<byte>)
    reads pool, pool.full
  {
    && pool.Valid() && Pending(pool.slots, key) && Dirty(pool.slots, key)
    && pool.View(key) == Some(text) && Appendable(ImageAt(pool.slots, key))
  }

  /** WRITE at the end of the member appends, if it is done. */
  method Append(pool: Pool, key: Key, ghost text: seq<byte>, data: seq<byte>, off: nat) returns (status: Status)
    requires Owes(pool, key, text) && off == |text| && |data| < U32
    modifies pool, pool.full
    ensures status.Ok? ==> Owes(pool, key, text + data)
  {
    ghost var s := pool.Now();
    ghost var base := s.Base(key, off, |data|);
    VisibleIsImage(pool.slots, pool.disk, key);
    assert pool.OkAt(SlotAt(pool.slots, key));
    AppendIsExact(base, data, pool.fate(pool.tick).junk);
    status := pool.Write(key, data, off);
  }

  /** CREATE, WRITE after WRITE in order, and COMMIT: if each is done, what was written is what clients
      see and what is on disk, whatever else the system did meanwhile, and whatever member of that
      name was there before. */
  method Save(pool: Pool, key: Key, chunks: seq<seq<byte>>) returns (ok: bool)
    requires pool.Valid() && SoundFor(pool.slots, key) && forall c | c in chunks :: |c| < U32
    modifies pool, pool.full
    ensures ok ==> pool.Valid() && pool.View(key) == OnDisk(pool.disk, key) == Some(Concat(chunks))
  {
    SoundImage(pool.slots, key);
    var status := pool.Create(key);
    if !status.Ok? {
      return false;
    }
    ok := AppendAll(pool, key, chunks);
    if ok {
      status := pool.Commit(key);
      ok := status.Ok?;
    }
  }

  /** WRITE after WRITE in order, up to the first that is refused. */
  method AppendAll(pool: Pool, key: Key, chunks: seq<seq<byte>>) returns (ok: bool)
    requires Owes(pool, key, []) && forall c | c in chunks :: |c| < U32
    modifies pool, pool.full
    ensures ok ==> Owes(pool, key, Concat(chunks))
  {
    ghost var text := [];
    var off := 0;
    for k := 0 to |chunks|
      invariant Owes(pool, key, text) && off == |text| && text + Concat(chunks[k..]) == Concat(chunks)
    {
      var status := Append(pool, key, text, chunks[k], off);
      if !status.Ok? {
        return false;
      }
      ChunkOn(text, chunks, k);
      off, text := off + |chunks[k]|, text + chunks[k];
    }
    assert text + [] == text;
    return true;
  }

  lemma ChunkOn(text: seq<byte>, chunks: seq<seq<byte>>, k: nat)
    requires k < |chunks|
    ensures text + Concat(chunks[k..]) == text + chunks[k] + Concat(chunks[k + 1..])
  {
    assert chunks[k..][1..] == chunks[k + 1..];
  }
}
