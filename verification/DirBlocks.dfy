/**
 The blocks of a PDS directory (src/mvspdir.c): entries of varying length packed into 256-byte
 blocks, read from a start name to the end mark.
 */
module DirBlocks {
  import opened Bytes
  import opened Names
  import opened DirListing

  /** One entry: a name, the track and record where the member starts, and user data. The low
      five bits of `flags` count the halfwords of user data; the high bit marks an alias. */
  datatype DirEntry = DirEntry(name: Name, tt: nat, rec: byte, flags: byte, user: seq<byte>) {
    predicate Valid() {
      ValidName(name) && Padded(name) != ENDMARK && tt < 0x1_0000 && |user| == 2 * (flags % 32)
    }
  }

  const ENDMARK: seq<byte> := [255, 255, 255, 255, 255, 255, 255, 255]

  /** The bytes of an entry. */
  function Wire(e: DirEntry): (w: seq<byte>)
    requires e.Valid()
    ensures |w| == 12 + 2 * (e.flags % 32)
  {
    Padded(e.name) + [e.tt / 256, e.tt % 256, e.rec, e.flags] + e.user
  }

  function WireAll(es: seq<DirEntry>): seq<byte>
    requires forall e | e in es :: e.Valid()
  {
    if es == [] then [] else Wire(es[0]) + WireAll(es[1..])
  }

  /** `data` stands in `block` at `p`. */
  predicate At(block: seq<byte>, p: nat, data: seq<byte>) {
    p + |data| <= |block| && block[p..p + |data|] == data
  }

  function HalfWord(block: seq<byte>, p: nat): nat
    requires p + 2 <= |block|
  {
    (block[p] as int) * 256 + block[p + 1]
  }

  /** The entries `es` stand at `p`, and after them comes the end of the part in use, or before
      that the end mark. */
  ghost predicate Ahead(block: seq<byte>, p: nat, es: seq<DirEntry>, end: nat, last: bool) {
    && (forall e | e in es :: e.Valid()) && At(block, p, WireAll(es))
    && var q := p + |WireAll(es)|;
       if last then q < end && At(block, q, ENDMARK) else q == end
  }

  /** A well-formed block holding `es`: its first halfword counts the bytes in use, and the last
      block of a directory has the end mark after its entries. */
  ghost predicate IsBlock(block: seq<byte>, es: seq<DirEntry>, last: bool) {
    |block| == 256 && Ahead(block, 2, es, HalfWord(block, 0), last)
  }

  /** The entries a read from name `s` takes in. */
  function Kept(es: seq<DirEntry>, s: Name): seq<DirEntry> {
    if es == [] then [] else (if Reaches(es[0].name, s) then [es[0]] else []) + Kept(es[1..], s)
  }

  function NamesOf(es: seq<DirEntry>): (ns: seq<Name>)
    ensures |ns| == |es| && forall i | 0 <= i < |es| :: ns[i] == es[i].name
  {
    seq(|es|, i requires 0 <= i < |es| => es[i].name)
  }

  lemma {:induction false} KeptAppend(a: seq<DirEntry>, b: seq<DirEntry>, s: Name)
    ensures Kept(a + b, s) == Kept(a, s) + Kept(b, s)
  {
    if a == [] {
      assert a + b == b;
    } else {
      assert (a + b)[1..] == a[1..] + b;
      KeptAppend(a[1..], b, s);
      Assoc(if Reaches(a[0].name, s) then [a[0]] else [], Kept(a[1..], s), Kept(b, s));
    }
  }

  /** What is kept of a directory in order is the suffix that a listing from `s` starts with. */
  lemma {:induction false} KeptIsFrom(es: seq<DirEntry>, s: Name)
    requires Directory(NamesOf(es))
    ensures NamesOf(Kept(es, s)) == From(NamesOf(es), s) && |From(NamesOf(es), s)| <= |es|
    ensures Kept(es, s) == es[|es| - |From(NamesOf(es), s)|..]
  {
    if es != [] {
      var names := NamesOf(es);
      assert names[1..] == NamesOf(es[1..]);
      AscendingTail(names);
      if Reaches(names[0], s) {
        FromHolds(names, s);
        forall e | e in es
          ensures Reaches(e.name, s)
        {
          var i :| 0 <= i < |es| && es[i] == e;
          assert names[i] in names;
        }
        KeptAll(es, s);
      } else {
        KeptIsFrom(es[1..], s);
        assert es[1..][|es| - 1 - |From(names, s)|..] == es[|es| - |From(names, s)|..];
      }
    }
  }

  lemma {:induction false} KeptAll(es: seq<DirEntry>, s: Name)
    requires forall e | e in es :: Reaches(e.name, s)
    ensures Kept(es, s) == es
  {
    if es != [] {
      KeptAll(es[1..], s);
      assert es == [es[0]] + es[1..];
    }
  }

  /** A string in a buffer: `s`, a NUL, and whatever was there before. */
  ghost predicate InBuffer(buf: seq<byte>, s: Name) {
    && |s| <= 8 < |buf| && buf[..|s|] == s && buf[|s|] == 0
    && forall i | 0 <= i < |s| :: s[i] != BLANK && s[i] != 0
  }

  /** Comparing the eight bytes of a name's field with the first eight of a buffer depends only on
      the string in the buffer. */
  lemma {:induction false} FieldCompare(n: Name, s: Name, k: nat, buf: seq<byte>)
    requires |n| <= k && |s| <= k == |buf| && buf[..|s|] == s && (|s| < k ==> buf[|s|] == 0)
    requires forall i | 0 <= i < |n| :: n[i] > BLANK
    requires forall i | 0 <= i < |s| :: s[i] != BLANK
    ensures Compare(n + Blanks(k - |n|), buf) >= 0 <==> Reaches(n, s)
    decreases k
  {
    if s != [] {
      assert buf[0] == buf[..|s|][0];
    }
    if n != [] && s != [] && n[0] == s[0] {
      assert buf[1..][..|s| - 1] == buf[..|s|][1..];
      FieldCompare(n[1..], s[1..], k - 1, buf[1..]);
      assert (n + Blanks(k - |n|))[1..] == n[1..] + Blanks(k - |n|);
      assert (n + Blanks(8))[1..] == n[1..] + Blanks(8);
      assert (s + Zeros(8))[1..] == s[1..] + Zeros(8);
    }
  }

  /** The pieces of an entry that stands at `p`. */
  lemma EntryAt(block: seq<byte>, p: nat, e: DirEntry)
    requires e.Valid() && At(block, p, Wire(e))
    ensures p + 12 + |e.user| <= |block|
    ensures block[p..p + 8] == Padded(e.name) && block[p + 12..p + 12 + |e.user|] == e.user
    ensures HalfWord(block, p + 8) == e.tt && block[p + 10] == e.rec && block[p + 11] == e.flags
  {
    var w := block[p..p + |Wire(e)|];
    assert w[8] == block[p + 8] && w[9] == block[p + 9] && w[10] == block[p + 10] && w[11] == block[p + 11];
    assert block[p..p + 8] == w[..8] == Wire(e)[..8];
    assert block[p + 12..p + 12 + |e.user|] == w[12..] == Wire(e)[12..];
  }

  /** Skip an entry, by its length. */
  method SkipDirEntry(block: seq<byte>, p: nat, ghost e: DirEntry) returns (len: nat)
    requires e.Valid() && At(block, p, Wire(e))
    ensures len == |Wire(e)|
  {
    EntryAt(block, p, e);
    var count := block[p + 11] % 32;
    len := 12 + count * 2;
  }

  /** Take an entry apart, and its length. */
  method ExtractDirEntry(block: seq<byte>, p: nat, ghost e: DirEntry) returns (r: DirEntry, len: nat)
    requires e.Valid() && At(block, p, Wire(e))
    ensures r == e && len == |Wire(e)|
  {
    EntryAt(block, p, e);
    var name := BytesToString(block[p..p + 8]);
    TrimmedPadding(e.name, 8 - |e.name|);
    var flags := block[p + 11];
    var count := flags % 32;
    r := DirEntry(name, HalfWord(block, p + 8), block[p + 10], flags, block[p + 12..p + 12 + count * 2]);
    len := 12 + count * 2;
  }

  lemma AtBoth(block: seq<byte>, p: nat, a: seq<byte>, b: seq<byte>)
    requires At(block, p, a + b)
    ensures At(block, p, a) && At(block, p + |a|, b)
  {
    var w := block[p..p + |a + b|];
    assert block[p..p + |a|] == w[..|a|];
    assert block[p + |a|..p + |a + b|] == w[|a|..];
  }

  lemma NextEntry(block: seq<byte>, p: nat, es: seq<DirEntry>, end: nat, last: bool)
    requires Ahead(block, p, es, end, last) && es != []
    ensures es[0].Valid() && At(block, p, Wire(es[0])) && block[p..p + 8] == Padded(es[0].name)
    ensures Ahead(block, p + |Wire(es[0])|, es[1..], end, last)
  {
    AtBoth(block, p, Wire(es[0]), WireAll(es[1..]));
    EntryAt(block, p, es[0]);
  }

  /** What the eight bytes at `p` tell: the end mark stands there when no entry is left, and
      otherwise the name of the next entry, to be compared with the start name. */
  lemma Look(block: seq<byte>, p: nat, es: seq<DirEntry>, end: nat, last: bool, start: seq<byte>, s: Name)
    requires Ahead(block, p, es, end, last) && p < end && InBuffer(start, s)
    ensures p + 8 <= |block| && (block[p..p + 8] == ENDMARK <==> es == []) && (es == [] ==> last)
    ensures es != [] ==> (Compare(block[p..p + 8], start[..8]) >= 0 <==> Reaches(es[0].name, s))
  {
    if es != [] {
      NextEntry(block, p, es, end, last);
      FieldCompare(es[0].name, s, 8, start[..8]);
    }
  }

  /** Take or skip the entry at `p`. */
  method OneEntry(block: seq<byte>, p: nat, take: bool, list: seq<DirEntry>,
                  ghost es: seq<DirEntry>, ghost end: nat, ghost last: bool) returns (grown: seq<DirEntry>, len: nat)
    requires Ahead(block, p, es, end, last) && es != []
    ensures grown == (if take then list + [es[0]] else list) && len > 0
    ensures Ahead(block, p + len, es[1..], end, last)
  {
    NextEntry(block, p, es, end, last);
    grown := list;
    if take {
      var e;
      e, len := ExtractDirEntry(block, p, es[0]);
      grown := list + [e];
    } else {
      len := SkipDirEntry(block, p, es[0]);
    }
  }

  lemma KeptStep(list: seq<DirEntry>, es: seq<DirEntry>, s: Name)
    requires es != []
    ensures list + Kept(es, s) == (if Reaches(es[0].name, s) then list + [es[0]] else list) + Kept(es[1..], s)
  {
    Assoc(list, [es[0]], Kept(es[1..], s));
    assert [] + Kept(es[1..], s) == Kept(es[1..], s);
  }

  /** Append to `list` every entry of a block whose name is reached from the start name. */
  method ProcessDirBlock(block: seq<byte>, start: seq<byte>, list: seq<DirEntry>,
                         ghost es: seq<DirEntry>, ghost last: bool, ghost s: Name)
      returns (grown: seq<DirEntry>, endOfDir: bool)
    requires IsBlock(block, es, last) && InBuffer(start, s)
    ensures grown == list + Kept(es, s) && endOfDir == last
  {
    grown, endOfDir := list, false;
    var end := HalfWord(block, 0);
    var p := 2;
    ghost var todo := es;
    while p < end
      invariant Ahead(block, p, todo, end, last) && !endOfDir
      invariant grown + Kept(todo, s) == list + Kept(es, s)
      decreases end - p
    {
      Look(block, p, todo, end, last, start, s);
      if block[p..p + 8] == ENDMARK {
        endOfDir := true;
        break;
      }
      KeptStep(grown, todo, s);
      var len;
      grown, len := OneEntry(block, p, Compare(block[p..p + 8], start[..8]) >= 0, grown, todo, end, last);
      p, todo := p + len, todo[1..];
    }
  }

  /** Block `i` of a directory file, past the length that stands before it. */
  function BlockAt(file: seq<byte>, i: nat): seq<byte>
    requires 258 * i + 258 <= |file|
  {
    file[258 * i + 2..258 * i + 258]
  }

  /** A directory file: well-formed blocks up to the one with the end mark, then anything. */
  ghost predicate IsDirectory(file: seq<byte>, blocks: seq<seq<DirEntry>>) {
    && blocks != [] && 258 * |blocks| <= |file|
    && forall i | 0 <= i < |blocks| :: IsBlock(BlockAt(file, i), blocks[i], i == |blocks| - 1)
  }

  /** Read the directory from the start name to the end mark. */
  method ReadPdsDir(file: seq<byte>, start: seq<byte>, ghost blocks: seq<seq<DirEntry>>, ghost s: Name)
      returns (list: seq<DirEntry>, endOfDir: bool)
    requires IsDirectory(file, blocks) && InBuffer(start, s)
    ensures list == Kept(Concat(blocks), s) && endOfDir
  {
    list, endOfDir := [], false;
    var i: nat := 0;
    while 258 * i + 258 <= |file|
      invariant i < |blocks| && !endOfDir
      invariant list + Kept(Concat(blocks[i..]), s) == Kept(Concat(blocks), s)
      decreases |file| - 258 * i
    {
      ghost var es, was := blocks[i], list;
      list, endOfDir := ProcessDirBlock(BlockAt(file, i), start, list, es, i == |blocks| - 1, s);
      KeptAppend(es, Concat(blocks[i + 1..]), s);
      assert blocks[i..][1..] == blocks[i + 1..];
      Assoc(was, Kept(es, s), Kept(Concat(blocks[i + 1..]), s));
      if endOfDir {
        break;
      }
      i := i + 1;
    }
  }

  /** Look up one member: the first entry from its name on, if that is the member itself. */
  method GetMemberEntry(file: seq<byte>, member: Name, ghost blocks: seq<seq<DirEntry>>) returns (r: Option<DirEntry>)
    requires IsDirectory(file, blocks) && Directory(NamesOf(Concat(blocks))) && ValidName(member)
    ensures r.Some? <==> member in NamesOf(Concat(blocks))
    ensures r.Some? ==> r.value in Concat(blocks) && r.value.name == member
  {
    var list, _ := ReadPdsDir(file, member + Zeros(9 - |member|), blocks, member);
    FirstKept(Concat(blocks), member);
    if |list| == 0 || list[0].name != member {
      return None;
    }
    return Some(list[0]);
  }

  /** The member asked for comes first of those kept, if it is there at all. */
  lemma {:induction false} FirstKept(es: seq<DirEntry>, s: Name)
    requires Directory(NamesOf(es)) && ValidName(s)
    ensures s in NamesOf(es) <==> Kept(es, s) != [] && Kept(es, s)[0].name == s
    ensures forall e | e in Kept(es, s) :: e in es
  {
    if es != [] {
      var names := NamesOf(es);
      assert names[1..] == NamesOf(es[1..]);
      AscendingTail(names);
      FirstKept(es[1..], s);
      ReachesAbove(names[0], s);
      CompareSame(names[0], s);
      if s in names[1..] {
        assert Less(names[0], s);
      }
      assert s in names <==> s == names[0] || s in names[1..];
    }
  }
}
