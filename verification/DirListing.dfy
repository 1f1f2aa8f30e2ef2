/**
 Listing a PDS directory page by page (src/mvsvfs.c, src/nfs3.c): a cached slot, a cookie
 that names the last entry seen, and replies bounded by the client's maxcount.
 */
module DirListing {
  import opened Bytes
  import opened Names
  import opened MemberSearch
  import opened Xdr

  /** A directory of proper member names in order. */
  ghost predicate Directory(dir: seq<Name>) {
    Ascending(dir) && forall i | 0 <= i < |dir| :: ValidName(dir[i])
  }

  /** The entries from name `s` on: what reading the directory from `s` appends. */
  function From(dir: seq<Name>, s: Name): seq<Name> {
    if dir == [] || Reaches(dir[0], s) then dir else From(dir[1..], s)
  }

  /** The entries after cookie `c`. */
  function After(dir: seq<Name>, c: Name): seq<Name> {
    if dir == [] || Less(c, dir[0]) then dir else After(dir[1..], c)
  }

  function Head(names: seq<Name>): Option<Name> {
    if names == [] then None else Some(names[0])
  }

  lemma {:induction false} AscendingTail(dir: seq<Name>)
    requires Ascending(dir) && dir != []
    ensures Ascending(dir[1..])
    ensures forall n | n in dir[1..] :: Less(dir[0], n)
  {
  }

  /** Both suffixes keep the order, and hold exactly the names on their side. */
  lemma {:induction false} FromHolds(dir: seq<Name>, s: Name)
    requires Directory(dir)
    ensures Directory(From(dir, s)) && |From(dir, s)| <= |dir|
    ensures forall n | n in dir :: n in From(dir, s) <==> Reaches(n, s)
    ensures forall n | n in From(dir, s) :: n in dir
  {
    if dir != [] {
      AscendingTail(dir);
      if Reaches(dir[0], s) {
        forall n | n in dir
          ensures Reaches(n, s)
        {
          if n != dir[0] {
            assert n in dir[1..];
            ReachesOn(dir[0], n, s);
          }
        }
      } else {
        FromHolds(dir[1..], s);
      }
    }
  }

  lemma {:induction false} AfterHolds(dir: seq<Name>, c: Name)
    requires Ascending(dir)
    ensures Ascending(After(dir, c)) && |After(dir, c)| <= |dir|
    ensures forall n | n in dir :: n in After(dir, c) <==> Less(c, n)
    ensures forall n | n in After(dir, c) :: n in dir
  {
    if dir != [] {
      AscendingTail(dir);
      if Less(c, dir[0]) {
        forall n | n in dir
          ensures Less(c, n)
        {
          if n != dir[0] {
            assert n in dir[1..];
            LessTransitive(c, dir[0], n);
          }
        }
      } else {
        AfterHolds(dir[1..], c);
      }
    }
  }

  /** A list loaded from a name at or before the cookie gives the same continuation. */
  lemma {:induction false} AfterFrom(dir: seq<Name>, s: Name, c: Name)
    requires Directory(dir) && Compare(s, c) <= 0
    ensures After(From(dir, s), c) == After(dir, c)
  {
    if dir != [] && !Reaches(dir[0], s) {
      AscendingTail(dir);
      ReachesAbove(dir[0], s);
      LessTransitive(dir[0], s, c);
      CompareSame(dir[0], c);
      AfterFrom(dir[1..], s, c);
    }
  }

  /** The continuation after the entry just listed. */
  lemma {:induction false} AfterNext(dir: seq<Name>, c: Name)
    requires Ascending(dir) && After(dir, c) != []
    ensures After(dir, After(dir, c)[0]) == After(dir, c)[1..]
  {
    AscendingTail(dir);
    if Less(c, dir[0]) {
      CompareSame(dir[0], dir[0]);
      if dir[1..] != [] {
        assert dir[1..][0] in dir[1..];
      }
    } else {
      AfterNext(dir[1..], c);
      AfterHolds(dir[1..], c);
      var n := After(dir, c)[0];
      assert n in dir[1..];
      CompareSame(dir[0], n);
    }
  }

  lemma {:induction false} NothingAfter(names: seq<Name>, c: Name)
    requires Ascending(names) && (names == [] || Compare(c, names[|names| - 1]) >= 0)
    ensures After(names, c) == []
  {
    if names != [] {
      AscendingTail(names);
      var last := names[|names| - 1];
      CompareSame(c, last);
      CompareSame(c, names[0]);
      if |names| > 1 {
        LessTransitive(names[0], last, c);
        NothingAfter(names[1..], c);
      }
    }
  }

  lemma {:induction false} SearchIsHead(names: seq<Name>, c: Name, r: Option<nat>)
    requires Ascending(names) && IsNext(names, c, r)
    ensures Head(After(names, c)) == if r.Some? then Some(names[r.value]) else None
  {
    if names != [] && !Less(c, names[0]) {
      AscendingTail(names);
      SearchIsHead(names[1..], c, if r.Some? then Some(r.value - 1) else None);
    }
  }

  /** A cached list answers a reader correctly exactly when no member lies between the reader's
      cookie and the name the list was loaded from. */
  lemma {:induction false} CacheHides(dir: seq<Name>, start: Name, c: Name)
    requires Directory(dir)
    ensures Head(After(From(dir, start), c)) == Head(After(dir, c))
       <==> (forall n | n in dir && Less(c, n) :: Reaches(n, start))
  {
    if dir != [] && !Reaches(dir[0], start) {
      AscendingTail(dir);
      if Less(c, dir[0]) {
        assert dir[0] in dir;
        FromHolds(dir, start);
        AfterHolds(From(dir, start), c);
      } else {
        CacheHides(dir[1..], start, c);
        assert forall n | n in dir && Less(c, n) :: n in dir[1..];
        assert forall n | n in dir[1..] :: n in dir;
      }
    } else if dir != [] {
      FromHolds(dir, start);
    }
  }

  class DirSlot {
    var members: seq<Name>
    var endOfDir: bool
    ghost var start: Name        // the name the list was loaded from

    constructor ()
      ensures !endOfDir && members == []
    {
      members, endOfDir, start := [], false, [];
    }

    /** The cache of an unchanged directory: nothing yet, or everything from `start`. */
    ghost predicate Valid(dir: seq<Name>)
      reads this
    {
      Directory(dir) && members == if endOfDir then From(dir, start) else []
    }

    /** The name the list starts from once a reader at `c` has been served. */
    ghost function Start(c: Name): Name
      reads this
    {
      if endOfDir then start else c
    }

    /** Forget the cached list: the slot timed out, was evicted, or was invalidated. */
    method Forget()
      modifies this
      ensures !endOfDir && members == []
    {
      members, endOfDir := [], false;
    }

    /** The entry after `cookie`, and its own cookie. An empty slot is first loaded from the
        cookie's name to the end of the directory; a loaded one answers from its list. */
    method ReaddirNext(dir: seq<Name>, cookie: seq<byte>) returns (next: Option<Name>, after: seq<byte>)
      requires Valid(dir) && |cookie| == 8
      modifies this
      ensures Valid(dir) && endOfDir && start == old(Start(CookieName(cookie)))
      ensures next == Head(After(From(dir, start), CookieName(cookie)))
      ensures |after| == 8
      ensures next.Some? ==> next.value in dir && after == Padded(next.value) && CookieName(after) == next.value
    {
      after := cookie;
      var c := FromCookie(cookie);
      FromHolds(dir, start);
      if |members| == 0 || Compare(c, members[|members| - 1]) >= 0 {
        if endOfDir {
          NothingAfter(members, c);
          return None, cookie;
        }
        members, endOfDir, start := From(dir, c), true, c;
        FromHolds(dir, c);
      }
      var r := Search(members, c, Op(false, false, true));
      SearchIsHead(members, c, r);
      if r.Some? {
        var name := members[r.value];
        assert name in dir;
        CookieRoundTrip(name);
        after := ToCookie(name);
        return Some(name), after;
      }
      return None, cookie;
    }
  }

  // ---- replies ----

  /** The attributes of a file, as the source keeps them. */
  datatype Attr = Attr(
    ftype: nat, mode: nat, nlink: nat, uid: nat, gid: nat, size: nat, used: nat, rdevMaj: nat, rdevMin: nat,
    fsid: nat, fileid: nat, times: seq<nat>)

  /** What the file system says of a member: its leaf name and number, its attributes if it can
      be examined, and its handle if it can be named. */
  datatype Entry = Entry(fileid: nat, leaf: seq<byte>, attr: Option<Attr>, handle: Option<seq<byte>>) {
    ghost predicate Valid() {
      && (attr.Some? ==> |attr.value.times| == 6)
      && (handle.Some? ==> |handle.value| == 60)
    }
  }

  function Words(vs: seq<nat>): seq<Item> {
    if vs == [] then [] else [Word(vs[0])] + Words(vs[1..])
  }

  function Fattr3(a: Attr): seq<Item> {
    Words([a.ftype, a.mode, a.nlink, a.uid, a.gid]) + [Hyper(a.size), Hyper(a.used)]
    + Words([a.rdevMaj, a.rdevMin]) + [Hyper(a.fsid), Hyper(a.fileid)] + Words(a.times)
  }

  function PlainEntry(e: Entry, cookie: seq<byte>): seq<Item> {
    [Word(1), Hyper(e.fileid), Opaque(e.leaf), Fixed(cookie)]
  }

  function PlusEntry(e: Entry, cookie: seq<byte>): seq<Item>
    requires e.attr.Some? && e.handle.Some?
  {
    PlainEntry(e.(fileid := e.attr.value.fileid), cookie)
    + ([Word(1)] + Fattr3(e.attr.value) + [Word(1), Opaque(e.handle.value)])
  }

  /** Bytes on the wire. */
  function Size(items: seq<Item>): nat {
    |EncodeAll(items)|
  }

  lemma SizeAppend(a: seq<Item>, b: seq<Item>)
    ensures Size(a + b) == Size(a) + Size(b)
  {
    EncodeAllAppend(a, b);
  }

  lemma SizePair(a: Item, b: Item)
    ensures Size([a]) == |Encode(a)|
    ensures Size([a, b]) == |Encode(a)| + |Encode(b)|
  {
    assert [a, b] == [a] + [b];
    SizeAppend([a], [b]);
    assert EncodeAll([a]) == Encode(a) + EncodeAll([]);
    assert EncodeAll([b]) == Encode(b) + EncodeAll([]);
  }

  lemma {:induction false} WordsSize(vs: seq<nat>)
    ensures Size(Words(vs)) == 4 * |vs|
  {
    if vs != [] {
      WordsSize(vs[1..]);
      SizePair(Word(vs[0]), Word(vs[0]));
      SizeAppend([Word(vs[0])], Words(vs[1..]));
    }
  }

  lemma Fattr3Size(a: Attr)
    requires |a.times| == 6
    ensures Size(Fattr3(a)) == 84
  {
    var w, x := Words([a.ftype, a.mode, a.nlink, a.uid, a.gid]), [Hyper(a.size), Hyper(a.used)];
    var y, z := Words([a.rdevMaj, a.rdevMin]), [Hyper(a.fsid), Hyper(a.fileid)];
    WordsSize([a.ftype, a.mode, a.nlink, a.uid, a.gid]);
    WordsSize([a.rdevMaj, a.rdevMin]);
    WordsSize(a.times);
    SizePair(Hyper(a.size), Hyper(a.used));
    SizePair(Hyper(a.fsid), Hyper(a.fileid));
    SizeAppend(w + x + y + z, Words(a.times));
    SizeAppend(w + x + y, z);
    SizeAppend(w + x, y);
    SizeAppend(w, x);
  }

  /** The size READDIR reckons for an entry: value-follows, number, name with padding, cookie. */
  function PlainEstimate(e: Entry): nat {
    4 + 8 + 4 + (|e.leaf| + 3) / 4 * 4 + 8
  }

  /** The size READDIRPLUS reckons: a fixed 124 and the handle's 60, and the name unpadded. */
  function PlusEstimate(e: Entry): nat {
    124 + 60 + |e.leaf|
  }

  lemma RoundedUp(n: nat)
    ensures (n + 3) / 4 * 4 == n + Pad(n)
  {
  }

  lemma PlainEstimateExact(e: Entry, cookie: seq<byte>)
    requires |cookie| == 8
    ensures Size(PlainEntry(e, cookie)) == PlainEstimate(e)
  {
    SizePair(Word(1), Hyper(e.fileid));
    SizePair(Opaque(e.leaf), Fixed(cookie));
    RoundedUp(|e.leaf|);
    SizeAppend([Word(1), Hyper(e.fileid)], [Opaque(e.leaf), Fixed(cookie)]);
    assert PlainEntry(e, cookie) == [Word(1), Hyper(e.fileid)] + [Opaque(e.leaf), Fixed(cookie)];
  }

  /** The handle-and-attributes estimate is never too small, and over by at most four bytes. */
  lemma PlusEstimateDominates(e: Entry, cookie: seq<byte>)
    requires |cookie| == 8 && e.Valid() && e.attr.Some? && e.handle.Some?
    ensures Size(PlusEntry(e, cookie)) <= PlusEstimate(e) <= Size(PlusEntry(e, cookie)) + 4
    ensures Size(PlusEntry(e, cookie)) == PlusEstimate(e) - 4 + Pad(|e.leaf|)
  {
    var plain := e.(fileid := e.attr.value.fileid);
    var f := Fattr3(e.attr.value);
    var h := [Word(1), Opaque(e.handle.value)];
    PlainEstimateExact(plain, cookie);
    Fattr3Size(e.attr.value);
    SizePair(Word(1), Opaque(e.handle.value));
    SizeAppend([Word(1)] + f, h);
    SizeAppend([Word(1)], f);
    SizeAppend(PlainEntry(plain, cookie), [Word(1)] + f + h);
  }

  /** May this member be shown: always, or when it has attributes and a handle. */
  predicate Showable(n: Name, info: Name -> Entry, plus: bool) {
    plus ==> info(n).attr.Some? && info(n).handle.Some?
  }

  function Shown(names: seq<Name>, info: Name -> Entry, plus: bool): seq<Name> {
    if names == [] then []
    else (if Showable(names[0], info, plus) then [names[0]] else []) + Shown(names[1..], info, plus)
  }

  ghost predicate Listable(names: seq<Name>, info: Name -> Entry, plus: bool) {
    forall i | 0 <= i < |names| :: |names[i]| <= 8 && Showable(names[i], info, plus)
  }

  function EntryOf(n: Name, info: Name -> Entry, plus: bool): seq<Item>
    requires |n| <= 8 && Showable(n, info, plus)
  {
    if plus then PlusEntry(info(n), Padded(n)) else PlainEntry(info(n), Padded(n))
  }

  /** The entries of a reply. */
  function Entries(names: seq<Name>, info: Name -> Entry, plus: bool): seq<Item>
    requires Listable(names, info, plus)
  {
    if names == [] then []
    else
      var k := |names| - 1;
      Entries(names[..k], info, plus) + EntryOf(names[k], info, plus)
  }

  /** How far a reply has come: after cookie name `c` of `view`, `listed` has been shown, and the
      entries after `at`, or after the last one listed, are still to show. */
  ghost predicate Progress(view: seq<Name>, c: Name, listed: seq<Name>, at: Name, info: Name -> Entry, plus: bool) {
    var all := Shown(After(view, c), info, plus);
    && all == listed + Shown(After(view, at), info, plus)
    && (listed != [] ==> all == listed + Shown(After(view, listed[|listed| - 1]), info, plus))
  }

  /** One page: everything that may be shown, with the end flagged; or some of it, and the last
      cookie continues exactly where it stops. */
  ghost predicate Page(view: seq<Name>, c: Name, listed: seq<Name>, eof: bool, info: Name -> Entry, plus: bool) {
    if eof then listed == Shown(After(view, c), info, plus)
    else listed != [] && Progress(view, c, listed, listed[|listed| - 1], info, plus)
  }

  lemma Step(view: seq<Name>, c: Name, listed: seq<Name>, at: Name, info: Name -> Entry, plus: bool)
    requires Ascending(view) && After(view, at) != [] && Progress(view, c, listed, at, info, plus)
    ensures var n := After(view, at)[0];
            && After(view, n) == After(view, at)[1..]
            && Progress(view, c, if Showable(n, info, plus) then listed + [n] else listed, n, info, plus)
  {
    AfterNext(view, at);
    var n := After(view, at)[0];
    var more := Shown(After(view, n), info, plus);
    Assoc(listed, [n], more);
    assert [] + more == more;
  }

  /** The reply so far. */
  function Body(head: seq<Item>, listed: seq<Name>, info: Name -> Entry, plus: bool): seq<Item>
    requires Listable(listed, info, plus)
  {
    head + Entries(listed, info, plus)
  }

  lemma AddEntry(head: seq<Item>, listed: seq<Name>, n: Name, info: Name -> Entry, plus: bool)
    requires Listable(listed, info, plus) && |n| <= 8 && Showable(n, info, plus)
    ensures Listable(listed + [n], info, plus)
    ensures Body(head, listed + [n], info, plus) == Body(head, listed, info, plus) + EntryOf(n, info, plus)
    ensures Size(Body(head, listed + [n], info, plus)) == Size(Body(head, listed, info, plus)) + Size(EntryOf(n, info, plus))
  {
    var more, e := Entries(listed, info, plus), EntryOf(n, info, plus);
    assert (listed + [n])[..|listed|] == listed;
    Assoc(head, more, e);
    SizeAppend(head + more, e);
  }

  const END: seq<Item> := [Word(0), Word(1)]
  const MORE: seq<Item> := [Word(0), Word(0)]

  lemma TrailerSize(front: seq<Item>, eof: bool)
    ensures Size(front + if eof then END else MORE) == Size(front) + 8
  {
    SizePair(Word(0), Word(1));
    SizePair(Word(0), Word(0));
    SizeAppend(front, if eof then END else MORE);
  }

  /** The reply built so far holds the entries of `listed`, and two or more leave room for the
      trailer. */
  ghost predicate Built(reply: seq<Item>, head: seq<Item>, listed: seq<Name>, info: Name -> Entry, plus: bool, maxcount: nat) {
    && Listable(listed, info, plus) && reply == Body(head, listed, info, plus)
    && (|listed| >= 2 ==> Size(reply) + 8 <= maxcount)
  }

  lemma BuildOn(reply: seq<Item>, head: seq<Item>, listed: seq<Name>, n: Name, info: Name -> Entry, plus: bool, maxcount: nat)
    requires Built(reply, head, listed, info, plus, maxcount) && ValidName(n) && Showable(n, info, plus)
    requires info(n).Valid()
    requires listed == [] || Size(reply) + (if plus then PlusEstimate(info(n)) else PlainEstimate(info(n))) + 8 <= maxcount
    ensures Built(reply + EntryOf(n, info, plus), head, listed + [n], info, plus, maxcount)
  {
    AddEntry(head, listed, n, info, plus);
    if plus {
      PlusEstimateDominates(info(n), Padded(n));
    } else {
      PlainEstimateExact(info(n), Padded(n));
    }
  }

  /** A finished reply: the entries listed and the trailer, within the limit if two or more. */
  ghost predicate Complete(reply: seq<Item>, head: seq<Item>, listed: seq<Name>, eof: bool, info: Name -> Entry, plus: bool,
                           maxcount: nat)
  {
    && Listable(listed, info, plus)
    && reply == Body(head, listed, info, plus) + (if eof then END else MORE)
    && (|listed| >= 2 ==> Size(reply) <= maxcount)
  }

  lemma BuildStart(head: seq<Item>, info: Name -> Entry, plus: bool, maxcount: nat)
    ensures Built(head, head, [], info, plus, maxcount)
  {
    assert head + [] == head;
  }

  lemma BuildEnd(reply: seq<Item>, head: seq<Item>, listed: seq<Name>, eof: bool, info: Name -> Entry, plus: bool, maxcount: nat)
    requires Built(reply, head, listed, info, plus, maxcount)
    ensures Complete(reply + (if eof then END else MORE), head, listed, eof, info, plus, maxcount)
    ensures Size(reply + (if eof then END else MORE)) == Size(reply) + 8
  {
    TrailerSize(reply, eof);
  }

  /** The entry read after `seen`, and its cookie. */
  ghost predicate Cursor(dir: seq<Name>, view: seq<Name>, seen: Name, next: Option<Name>, at: seq<byte>) {
    && Ascending(view) && |at| == 8 && next == Head(After(view, seen))
    && (next.Some? ==> ValidName(next.value) && at == Padded(next.value) && CookieName(at) == next.value)
  }

  /** Read on: the cursor moves to the entry after `cookie`. */
  method Next(slot: DirSlot, dir: seq<Name>, cookie: seq<byte>) returns (next: Option<Name>, at: seq<byte>)
    requires slot.Valid(dir) && |cookie| == 8
    modifies slot
    ensures slot.Valid(dir) && slot.endOfDir && slot.start == old(slot.Start(CookieName(cookie)))
    ensures Cursor(dir, From(dir, slot.start), CookieName(cookie), next, at)
  {
    next, at := slot.ReaddirNext(dir, cookie);
    FromHolds(dir, slot.start);
  }

  lemma EndsPage(view: seq<Name>, c: Name, listed: seq<Name>, seen: Name, info: Name -> Entry, plus: bool)
    requires Progress(view, c, listed, seen, info, plus)
    ensures After(view, seen) == [] ==> Page(view, c, listed, true, info, plus)
    ensures listed != [] ==> Page(view, c, listed, false, info, plus)
  {
    assert listed + [] == listed;
  }

  /** The entry after the last one listed would not have fitted. */
  ghost predicate Stopped(view: seq<Name>, listed: seq<Name>, reply: seq<Item>, info: Name -> Entry, maxcount: nat) {
    && listed != []
    && var more := After(view, listed[|listed| - 1]);
       more != [] && Size(reply) + PlainEstimate(info(more[0])) > maxcount
  }

  lemma StopsHere(view: seq<Name>, listed: seq<Name>, reply: seq<Item>, n: Name, info: Name -> Entry, maxcount: nat)
    requires listed != [] && Head(After(view, listed[|listed| - 1])) == Some(n)
    requires Size(reply) + PlainEstimate(info(n)) + 8 > maxcount
    ensures Stopped(view, listed, reply + MORE, info, maxcount)
  {
    TrailerSize(reply, false);
  }

  /** A READDIR reply on its way: everything up to `seen` is listed and built. */
  ghost predicate Going(view: seq<Name>, c: Name, listed: seq<Name>, seen: Name, reply: seq<Item>, head: seq<Item>,
                        info: Name -> Entry, maxcount: nat)
  {
    && Progress(view, c, listed, seen, info, false) && Built(reply, head, listed, info, false, maxcount)
    && (listed != [] ==> seen == listed[|listed| - 1])
  }

  lemma GoOn(view: seq<Name>, c: Name, listed: seq<Name>, seen: Name, reply: seq<Item>, head: seq<Item>,
             info: Name -> Entry, maxcount: nat, n: Name)
    requires Going(view, c, listed, seen, reply, head, info, maxcount) && Ascending(view)
    requires Head(After(view, seen)) == Some(n) && ValidName(n) && info(n).Valid()
    requires listed == [] || Size(reply) + PlainEstimate(info(n)) + 8 <= maxcount
    ensures Going(view, c, listed + [n], n, reply + EntryOf(n, info, false), head, info, maxcount)
    ensures |After(view, n)| < |After(view, seen)|
  {
    BuildOn(reply, head, listed, n, info, false, maxcount);
    Step(view, c, listed, seen, info, false);
  }

  /** One READDIR reply. It stops before an entry only when that entry would not fit. */
  method Readdir(slot: DirSlot, dir: seq<Name>, info: Name -> Entry, cookie: seq<byte>, head: seq<Item>, maxcount: nat)
      returns (reply: seq<Item>, listed: seq<Name>, eof: bool)
    requires slot.Valid(dir) && |cookie| == 8 && (forall n :: info(n).Valid())
    modifies slot
    ensures slot.Valid(dir) && slot.endOfDir && slot.start == old(slot.Start(CookieName(cookie)))
    ensures Page(From(dir, slot.start), CookieName(cookie), listed, eof, info, false)
    ensures Complete(reply, head, listed, eof, info, false, maxcount)
    ensures !eof ==> Stopped(From(dir, slot.start), listed, reply, info, maxcount)
  {
    ghost var c := CookieName(cookie);
    ghost var view := From(dir, slot.Start(c));
    reply, listed, eof := head, [], true;
    BuildStart(head, info, false, maxcount);
    var next, at := Next(slot, dir, cookie);
    ghost var seen := c;
    while next.Some?
      invariant slot.Valid(dir) && slot.endOfDir && slot.start == old(slot.Start(c))
      invariant Cursor(dir, view, seen, next, at)
      invariant Going(view, c, listed, seen, reply, head, info, maxcount)
      decreases |After(view, seen)|
    {
      var n := next.value;
      var entry := info(n);
      if Size(reply) + PlainEstimate(entry) + 8 > maxcount && listed != [] {
        EndsPage(view, c, listed, seen, info, false);
        BuildEnd(reply, head, listed, false, info, false, maxcount);
        StopsHere(view, listed, reply, n, info, maxcount);
        reply, eof := reply + MORE, false;
        return;
      }
      GoOn(view, c, listed, seen, reply, head, info, maxcount, n);
      reply, listed, seen := reply + PlainEntry(entry, at), listed + [n], n;
      next, at := Next(slot, dir, at);
    }
    EndsPage(view, c, listed, seen, info, false);
    BuildEnd(reply, head, listed, true, info, false, maxcount);
    reply := reply + END;
  }

  /** Everything between the last one listed and what follows `seen` was passed over. */
  ghost predicate PassedOver(view: seq<Name>, listed: seq<Name>, seen: Name, skipped: seq<Name>, info: Name -> Entry) {
    listed != [] ==>
      && After(view, listed[|listed| - 1]) == skipped + After(view, seen)
      && forall s | s in skipped :: !Showable(s, info, true)
  }

  /** The first entry with attributes that was not passed over would not have fitted. */
  ghost predicate StoppedPlus(view: seq<Name>, listed: seq<Name>, reply: seq<Item>, info: Name -> Entry, maxcount: nat) {
    listed != [] && exists skipped, n :: StoppedAt(view, listed, skipped, n, reply, info, maxcount)
  }

  ghost predicate StoppedAt(view: seq<Name>, listed: seq<Name>, skipped: seq<Name>, n: Name, reply: seq<Item>,
                            info: Name -> Entry, maxcount: nat)
    requires listed != []
  {
    && skipped + [n] <= After(view, listed[|listed| - 1]) && (forall s | s in skipped :: !Showable(s, info, true))
    && info(n).attr.Some? && Size(reply) + PlusEstimate(info(n)) > maxcount
  }

  lemma StopsAt(view: seq<Name>, listed: seq<Name>, seen: Name, skipped: seq<Name>, n: Name, reply: seq<Item>,
                info: Name -> Entry, maxcount: nat)
    requires listed != [] && PassedOver(view, listed, seen, skipped, info) && Head(After(view, seen)) == Some(n)
    requires info(n).attr.Some? && Size(reply) + PlusEstimate(info(n)) + 8 > maxcount
    ensures StoppedPlus(view, listed, reply + MORE, info, maxcount)
  {
    TrailerSize(reply, false);
    var more := After(view, seen);
    assert skipped + more == skipped + [n] + more[1..];
    assert StoppedAt(view, listed, skipped, n, reply + MORE, info, maxcount);
  }

  lemma PassOver(view: seq<Name>, listed: seq<Name>, seen: Name, skipped: seq<Name>, n: Name, info: Name -> Entry)
    requires PassedOver(view, listed, seen, skipped, info) && Head(After(view, seen)) == Some(n)
    requires After(view, n) == After(view, seen)[1..] && !Showable(n, info, true)
    ensures PassedOver(view, listed, n, skipped + [n], info)
  {
    assert skipped + After(view, seen) == skipped + [n] + After(view, n);
  }

  /** A READDIRPLUS reply on its way. */
  ghost predicate GoingPlus(view: seq<Name>, c: Name, listed: seq<Name>, seen: Name, skipped: seq<Name>, reply: seq<Item>,
                            head: seq<Item>, info: Name -> Entry, maxcount: nat)
  {
    && Progress(view, c, listed, seen, info, true) && Built(reply, head, listed, info, true, maxcount)
    && PassedOver(view, listed, seen, skipped, info)
  }

  lemma ListPlus(view: seq<Name>, c: Name, listed: seq<Name>, seen: Name, skipped: seq<Name>, reply: seq<Item>, head: seq<Item>,
                 info: Name -> Entry, maxcount: nat, n: Name)
    requires GoingPlus(view, c, listed, seen, skipped, reply, head, info, maxcount) && Ascending(view)
    requires Head(After(view, seen)) == Some(n) && ValidName(n) && info(n).Valid() && Showable(n, info, true)
    requires listed == [] || Size(reply) + PlusEstimate(info(n)) + 8 <= maxcount
    ensures GoingPlus(view, c, listed + [n], n, [], reply + EntryOf(n, info, true), head, info, maxcount)
    ensures |After(view, n)| < |After(view, seen)|
  {
    BuildOn(reply, head, listed, n, info, true, maxcount);
    Step(view, c, listed, seen, info, true);
    assert [] + After(view, n) == After(view, n);
  }

  lemma SkipPlus(view: seq<Name>, c: Name, listed: seq<Name>, seen: Name, skipped: seq<Name>, reply: seq<Item>, head: seq<Item>,
                 info: Name -> Entry, maxcount: nat, n: Name)
    requires GoingPlus(view, c, listed, seen, skipped, reply, head, info, maxcount) && Ascending(view)
    requires Head(After(view, seen)) == Some(n) && !Showable(n, info, true)
    ensures GoingPlus(view, c, listed, n, skipped + [n], reply, head, info, maxcount)
    ensures |After(view, n)| < |After(view, seen)|
  {
    Step(view, c, listed, seen, info, true);
    PassOver(view, listed, seen, skipped, n, info);
  }

  /** One READDIRPLUS reply: an entry without attributes is passed over before the size is
      tested, and one without a handle after it. It stops only before an entry with attributes that
      would not fit. */
  method Readdirplus(slot: DirSlot, dir: seq<Name>, info: Name -> Entry, cookie: seq<byte>, head: seq<Item>, maxcount: nat)
      returns (reply: seq<Item>, listed: seq<Name>, eof: bool)
    requires slot.Valid(dir) && |cookie| == 8 && (forall n :: info(n).Valid())
    modifies slot
    ensures slot.Valid(dir) && slot.endOfDir && slot.start == old(slot.Start(CookieName(cookie)))
    ensures Page(From(dir, slot.start), CookieName(cookie), listed, eof, info, true)
    ensures Complete(reply, head, listed, eof, info, true, maxcount)
    ensures !eof ==> StoppedPlus(From(dir, slot.start), listed, reply, info, maxcount)
  {
    ghost var c := CookieName(cookie);
    ghost var view := From(dir, slot.Start(c));
    reply, listed, eof := head, [], true;
    BuildStart(head, info, true, maxcount);
    var next, at := Next(slot, dir, cookie);
    ghost var seen, skipped := c, [];
    while next.Some?
      invariant slot.Valid(dir) && slot.endOfDir && slot.start == old(slot.Start(c))
      invariant Cursor(dir, view, seen, next, at)
      invariant GoingPlus(view, c, listed, seen, skipped, reply, head, info, maxcount)
      decreases |After(view, seen)|
    {
      var n := next.value;
      var entry := info(n);
      if entry.attr.Some? && Size(reply) + PlusEstimate(entry) + 8 > maxcount && listed != [] {
        EndsPage(view, c, listed, seen, info, true);
        BuildEnd(reply, head, listed, false, info, true, maxcount);
        StopsAt(view, listed, seen, skipped, n, reply, info, maxcount);
        reply, eof := reply + MORE, false;
        return;
      }
      if entry.attr.Some? && entry.handle.Some? {
        ListPlus(view, c, listed, seen, skipped, reply, head, info, maxcount, n);
        reply, listed, skipped := reply + PlusEntry(entry, at), listed + [n], [];
      } else {
        SkipPlus(view, c, listed, seen, skipped, reply, head, info, maxcount, n);
        skipped := skipped + [n];
      }
      seen := n;
      next, at := Next(slot, dir, at);
    }
    EndsPage(view, c, listed, seen, info, true);
    BuildEnd(reply, head, listed, true, info, true, maxcount);
    reply := reply + END;
  }

  /** A page served from a list that starts at or before the cookie is a page of the directory
      itself, and after an unfinished page there is less to come. */
  method NextPage(slot: DirSlot, dir: seq<Name>, info: Name -> Entry, plus: bool, cookie: seq<byte>, head: seq<Item>,
                  maxcount: nat) returns (listed: seq<Name>, eof: bool, after: seq<byte>)
    requires slot.Valid(dir) && |cookie| == 8 && (forall n :: info(n).Valid())
    modifies slot
    ensures slot.Valid(dir) && slot.endOfDir && slot.start == old(slot.Start(CookieName(cookie))) && |after| == 8
    ensures Compare(slot.start, CookieName(cookie)) <= 0 ==>
              (Shown(After(dir, CookieName(cookie)), info, plus)
               == listed + if eof then [] else Shown(After(dir, CookieName(after)), info, plus))
    ensures !eof ==>
              && Less(CookieName(cookie), CookieName(after))
              && |After(dir, CookieName(after))| < |After(dir, CookieName(cookie))|
  {
    ghost var c := CookieName(cookie);
    ghost var from := slot.Start(c);
    var reply;
    if plus {
      reply, listed, eof := Readdirplus(slot, dir, info, cookie, head, maxcount);
    } else {
      reply, listed, eof := Readdir(slot, dir, info, cookie, head, maxcount);
    }
    after := cookie;
    if eof {
      if Compare(from, c) <= 0 {
        AfterFrom(dir, from, c);
      }
    } else {
      LastListed(dir, from, c, listed, info, plus);
      after := Padded(listed[|listed| - 1]);
      CookieRoundTrip(listed[|listed| - 1]);
    }
  }

  /** Where the list that served a page started, and the page's cookie. */
  datatype Served = Served(start: Name, cookie: Name) {
    predicate InTime() {
      Compare(start, cookie) <= 0
    }
  }

  /** Every page was served from a list that starts at or before its cookie. */
  ghost predicate NeverOvertaken(pages: seq<Served>) {
    forall k | 0 <= k < |pages| :: pages[k].InTime()
  }

  /** What is still to be shown after `c`, or nothing once the end is flagged. */
  function ToCome(dir: seq<Name>, info: Name -> Entry, plus: bool, c: Name, eof: bool): seq<Name> {
    if eof then [] else Shown(After(dir, c), info, plus)
  }

  /** A page of a client, before which the cached list may be lost and another may read. */
  method Round(slot: DirSlot, dir: seq<Name>, info: Name -> Entry, plus: bool, cookie: seq<byte>, head: seq<Item>,
               maxcount: nat, lost: bool, other: Option<seq<byte>>)
      returns (listed: seq<Name>, eof: bool, after: seq<byte>, ghost page: Served)
    requires slot.Valid(dir) && |cookie| == 8 && (forall n :: info(n).Valid()) && (other.Some? ==> |other.value| == 8)
    modifies slot
    ensures slot.Valid(dir) && |after| == 8 && page.cookie == CookieName(cookie)
    ensures slot.Start(CookieName(after)) == page.start
    ensures page.InTime() ==> ToCome(dir, info, plus, page.cookie, false) == listed + ToCome(dir, info, plus, CookieName(after), eof)
    ensures !eof ==> Less(page.cookie, CookieName(after)) && |After(dir, CookieName(after))| < |After(dir, page.cookie)|
    ensures other.None? && old(Compare(slot.Start(CookieName(cookie)), CookieName(cookie)) <= 0) ==> page.InTime()
  {
    ghost var c := CookieName(cookie);
    CompareSame(c, c);
    if lost {
      slot.Forget();
    }
    if other.Some? {
      var _, _ := slot.ReaddirNext(dir, other.value);
    }
    page := Served(slot.Start(c), c);
    listed, eof, after := NextPage(slot, dir, info, plus, cookie, head, maxcount);
  }

  /** A client that lists a directory of which nothing changes: it follows the last cookie of
      each page until the end is flagged, while page sizes vary, the cached list may be lost
      before any page, and others may read at any cookie in between. It comes to an end; and it
      sees every member that may be shown, once and in order, if no page was served from a list
      that starts after its cookie. Only other readers can bring that about. */
  method ListAll(slot: DirSlot, dir: seq<Name>, info: Name -> Entry, plus: bool, head: seq<Item>,
                 maxcount: nat -> nat, lost: nat -> bool, others: nat -> Option<seq<byte>>)
      returns (all: seq<Name>, ghost pages: seq<Served>)
    requires slot.Valid(dir) && (forall n :: info(n).Valid())
    requires forall p :: others(p).Some? ==> |others(p).value| == 8
    modifies slot
    ensures NeverOvertaken(pages) ==> all == Shown(dir, info, plus)
    ensures (forall p :: others(p).None?) && old(slot.Start([])) == [] ==> NeverOvertaken(pages)
  {
    var cookie := Zeros(8);
    all, pages := [], [];
    AfterStart(dir);
    ghost var alone := (forall p :: others(p).None?) && slot.Start([]) == [];
    var p, eof := 0, false;
    while !eof
      invariant slot.Valid(dir) && |cookie| == 8
      invariant NeverOvertaken(pages) ==> Shown(dir, info, plus) == all + ToCome(dir, info, plus, CookieName(cookie), eof)
      invariant alone ==> NeverOvertaken(pages) && (forall p :: others(p).None?)
      invariant alone && !eof ==> Compare(slot.Start(CookieName(cookie)), CookieName(cookie)) <= 0
      decreases !eof, |After(dir, CookieName(cookie))|
    {
      ghost var c := CookieName(cookie);
      var listed;
      ghost var page;
      listed, eof, cookie, page := Round(slot, dir, info, plus, cookie, head, maxcount(p), lost(p), others(p));
      StillBefore(page.start, c, CookieName(cookie), eof);
      OneMorePage(pages, page);
      Assoc(all, listed, ToCome(dir, info, plus, CookieName(cookie), eof));
      all, p, pages := all + listed, p + 1, pages + [page];
    }
  }

  lemma OneMorePage(pages: seq<Served>, page: Served)
    ensures NeverOvertaken(pages + [page]) <==> NeverOvertaken(pages) && page.InTime()
  {
    assert forall k | 0 <= k < |pages| :: (pages + [page])[k] == pages[k];
    assert (pages + [page])[|pages|] == page;
  }

  lemma StillBefore(start: Name, c: Name, d: Name, eof: bool)
    requires eof || Less(c, d)
    ensures !eof && Compare(start, c) <= 0 ==> Compare(start, d) <= 0
  {
    if !eof && Compare(start, c) <= 0 {
      LessTransitive(start, c, d);
    }
  }

  lemma AfterStart(dir: seq<Name>)
    requires Directory(dir)
    ensures After(dir, []) == dir
  {
  }

  /** What may be shown is in order, so each member at most once, and misses no member that has
      what the reply needs; a READDIR reply needs nothing. */
  lemma {:induction false} ShownHolds(names: seq<Name>, info: Name -> Entry, plus: bool)
    requires Ascending(names)
    ensures Ascending(Shown(names, info, plus))
    ensures forall n :: n in Shown(names, info, plus) <==> n in names && Showable(n, info, plus)
    ensures !plus ==> Shown(names, info, plus) == names
  {
    if names != [] {
      AscendingTail(names);
      ShownHolds(names[1..], info, plus);
      assert names == [names[0]] + names[1..];
    }
  }

  /** The last name of an unfinished page: a member above the cookie, from which the listing goes
      on in the directory itself as it does in the cached list, if that starts early enough. */
  lemma LastListed(dir: seq<Name>, from: Name, c: Name, listed: seq<Name>, info: Name -> Entry, plus: bool)
    requires Directory(dir) && Page(From(dir, from), c, listed, false, info, plus)
    ensures var last := listed[|listed| - 1];
      && ValidName(last) && Less(c, last) && |After(dir, last)| < |After(dir, c)|
      && (Compare(from, c) <= 0 ==> Shown(After(dir, c), info, plus) == listed + Shown(After(dir, last), info, plus))
  {
    var last, view := listed[|listed| - 1], From(dir, from);
    FromHolds(dir, from);
    AfterHolds(view, c);
    ShownHolds(After(view, c), info, plus);
    assert last in Shown(After(view, c), info, plus);
    AfterShrinks(dir, c, last);
    if Compare(from, c) <= 0 {
      AfterFrom(dir, from, c);
      LessTransitive(from, c, last);
      AfterFrom(dir, from, last);
    }
  }

  lemma {:induction false} AfterShrinks(dir: seq<Name>, c: Name, n: Name)
    requires Ascending(dir) && n in dir && Less(c, n)
    ensures |After(dir, n)| < |After(dir, c)|
  {
    AscendingTail(dir);
    CompareSame(dir[0], n);
    AfterHolds(dir[1..], n);
    if dir[0] != n {
      AfterShrinks(dir[1..], c, n);
      AfterHolds(dir[1..], c);
    }
  }

  const FIRST: Name := [0xC1]
  const SECOND: Name := [0xD4]

  lemma TwoMembers()
    ensures Directory([FIRST, SECOND]) && From([FIRST, SECOND], [0xC5]) == [SECOND]
    ensures After([SECOND], []) == [SECOND] && After([FIRST, SECOND], []) == [FIRST, SECOND]
    ensures CookieName(Padded([0xC5])) == [0xC5] && CookieName(Zeros(8)) == []
  {
    assert Less(FIRST, SECOND);
    ReachesAbove(FIRST, [0xC5]);
    ReachesAbove(SECOND, [0xC5]);
    assert [FIRST, SECOND][1..] == [SECOND];
    CookieRoundTrip([0xC5]);
  }

  /** A reader that comes in between two members, and then one that starts from the beginning of
      the directory: the second is not shown the first member. */
  method MidDirectoryHides() returns (shown: Option<Name>)
    ensures shown == Some(SECOND) && Head(After([FIRST, SECOND], [])) == Some(FIRST)
  {
    TwoMembers();
    var slot := new DirSlot();
    var between, _ := slot.ReaddirNext([FIRST, SECOND], Padded([0xC5]));
    var at;
    shown, at := slot.ReaddirNext([FIRST, SECOND], Zeros(8));
  }
}
