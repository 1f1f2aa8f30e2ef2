/**
 File handles (src/fhandle.c): sixty bytes that name an export by a hash of its path, a dataset
 and a member, so that a handle outlives a restart.
 */
module Handles {
  import opened Bytes
  import opened Xdr
  import opened Paths

  datatype Handle = Handle(exportId: nat, dsname: Text, member: Text)

  const MAGIC: nat := 0x4E465333
  const PAD: byte := 0x20

  function Pads(n: nat): (p: seq<byte>)
    ensures |p| == n && forall i | 0 <= i < n :: p[i] == PAD
  {
    seq(n, _ => PAD)
  }

  // ---- sixty bytes ----

  /** A string in a field of `n` bytes: cut, or padded. */
  function Field(s: Text, n: nat): (f: seq<byte>)
    ensures |f| == n
  {
    if |s| > n then s[..n] else s + Pads(n - |s|)
  }

  method PutField(a: array<byte>, at: nat, s: Text, n: nat)
    requires at + n <= a.Length
    modifies a
    ensures a[..at + n] == old(a[..at]) + Field(s, n)
    ensures forall i | at + n <= i < a.Length :: a[i] == old(a[i])
  {
    var len := if |s| > n then n else |s|;
    for i := 0 to n
      invariant forall k | 0 <= k < i :: a[at + k] == Field(s, n)[k]
      invariant forall k | 0 <= k < a.Length && !(at <= k < at + i) :: a[k] == old(a[k])
    {
      a[at + i] := if i < len then s[i] else PAD;
    }
  }

  /** The string in a field: without trailing blanks, and ended by a NUL if there is one. */
  function Unpadded(f: seq<byte>): Text {
    if f == [] || f[|f| - 1] != PAD then f else Unpadded(f[..|f| - 1])
  }

  function OfField(f: seq<byte>): Text {
    var s := Unpadded(f);
    s[..First(s, 0)]
  }

  method GetField(f: seq<byte>) returns (s: Text)
    ensures s == OfField(f)
  {
    var i := |f|;
    assert f[..i] == f;
    while i > 0 && f[i - 1] == PAD
      invariant 0 <= i <= |f| && Unpadded(f[..i]) == Unpadded(f)
    {
      assert f[..i][..i - 1] == f[..i - 1];
      i := i - 1;
    }
    var d := f[..i];
    s := d[..First(d, 0)];
  }

  /** A string that a field of `n` bytes can carry: no NUL, and no blank at its end. */
  predicate Fits(s: Text, n: nat) {
    |s| <= n && 0 !in s && (s == [] || s[|s| - 1] != PAD)
  }

  lemma {:induction false} UnpadPads(s: Text, k: nat)
    requires s == [] || s[|s| - 1] != PAD
    ensures Unpadded(s + Pads(k)) == s
  {
    if k == 0 {
      assert s + Pads(0) == s;
    } else {
      assert (s + Pads(k))[..|s| + k - 1] == s + Pads(k - 1);
      UnpadPads(s, k - 1);
    }
  }

  lemma FieldRoundTrip(s: Text, n: nat)
    requires Fits(s, n)
    ensures OfField(Field(s, n)) == s
  {
    UnpadPads(s, n - |s|);
    FirstIs(s, 0, []);
    assert s[..|s|] == s;
  }

  function Encoded(h: Handle): (b: seq<byte>)
    ensures |b| == 60
  {
    Be32(MAGIC) + Be32(h.exportId) + Field(h.dsname, 44) + Field(h.member, 8)
  }

  function Decoded(b: seq<byte>): Option<Handle> {
    if |b| != 60 || OfBe32(b[..4]) != MAGIC then None
    else Some(Handle(OfBe32(b[4..8]), OfField(b[8..52]), OfField(b[52..])))
  }

  method Encode(h: Handle, bytes: array<byte>)
    requires bytes.Length == 60
    modifies bytes
    ensures bytes[..] == Encoded(h)
  {
    var front := Be32(MAGIC) + Be32(h.exportId);
    forall i | 0 <= i < 8 {
      bytes[i] := front[i];
    }
    assert bytes[..8] == front;
    PutField(bytes, 8, h.dsname, 44);
    PutField(bytes, 52, h.member, 8);
    assert bytes[..60] == bytes[..];
  }

  method Decode(bytes: seq<byte>) returns (h: Option<Handle>)
    ensures h == Decoded(bytes)
  {
    if |bytes| != 60 {
      return None;
    }
    if OfBe32(bytes[..4]) != MAGIC {
      return None;
    }
    var dsname := GetField(bytes[8..52]);
    var member := GetField(bytes[52..]);
    return Some(Handle(OfBe32(bytes[4..8]), dsname, member));
  }

  predicate ValidHandle(h: Handle) {
    h.exportId < U32 && Fits(h.dsname, 44) && Fits(h.member, 8)
  }

  /** A handle comes back from its bytes, so different handles have different bytes. */
  lemma WireRoundTrip(h: Handle)
    requires ValidHandle(h)
    ensures Decoded(Encoded(h)) == Some(h)
  {
    var b := Encoded(h);
    assert b[..4] == Be32(MAGIC) && b[4..8] == Be32(h.exportId);
    assert b[8..52] == Field(h.dsname, 44) && b[52..] == Field(h.member, 8);
    Be32RoundTrip(MAGIC);
    Be32RoundTrip(h.exportId);
    FieldRoundTrip(h.dsname, 44);
    FieldRoundTrip(h.member, 8);
  }

  // ---- paths ----

  /** A path as it fits the 256-byte buffers. */
  function Cut(path: Text): Text {
    path[..Min(|path|, 255)]
  }

  /** The handle of what a path names; `id` is the hash of an export's path. */
  function FromPath(exports: seq<Export>, id: Text -> nat, path: Text): Option<Handle> {
    var p := PlaceFrom(exports, Cut(path), 0);
    PlaceExists(exports, Cut(path), 0);
    match p
    case Nowhere => None
    case Root(e) => Some(Handle(id(exports[e].path), [], []))
    case Dir(e, d) => Some(Handle(id(exports[e].path), exports[e].datasets[d].dsname, []))
    case File(e, d, leaf) =>
      var x := exports[e].datasets[d];
      var m := MemberOf(leaf, x.ext);
      if m.None? then None else Some(Handle(id(exports[e].path), x.dsname, m.value))
  }

  /** The first export with this hash, or their number. */
  function FirstExport(exports: seq<Export>, id: Text -> nat, h: nat): (e: nat)
    ensures e <= |exports| && (e < |exports| ==> id(exports[e].path) == h)
    ensures forall i | 0 <= i < e :: id(exports[i].path) != h
  {
    if exports == [] || id(exports[0].path) == h then 0 else FirstExport(exports[1..], id, h) + 1
  }

  function FirstDataset(datasets: seq<Dataset>, dsname: Text): (d: nat)
    ensures d <= |datasets| && (d < |datasets| ==> datasets[d].dsname == dsname)
    ensures forall i | 0 <= i < d :: datasets[i].dsname != dsname
  {
    if datasets == [] || datasets[0].dsname == dsname then 0 else FirstDataset(datasets[1..], dsname) + 1
  }

  /** The path that a handle names, or none when it is stale. */
  function Resolved(exports: seq<Export>, id: Text -> nat, h: Handle): Option<Text> {
    var e := FirstExport(exports, id, h.exportId);
    if e == |exports| then None
    else if h.dsname == [] then Some(Cut(exports[e].path))
    else
      var d := FirstDataset(exports[e].datasets, h.dsname);
      if d == |exports[e].datasets| then None
      else
        var dir := exports[e].path + [SLASH] + exports[e].datasets[d].Dirname();
        if h.member == [] then Some(Cut(dir))
        else Some(Cut(dir + [SLASH] + FileName(h.member, exports[e].datasets[d].ext)))
  }

  method Resolve(exports: seq<Export>, id: Text -> nat, h: Handle) returns (path: Option<Text>)
    ensures path == Resolved(exports, id, h)
  {
    var e: nat := 0;
    while e < |exports| && id(exports[e].path) != h.exportId
      invariant e <= |exports| && forall i | 0 <= i < e :: id(exports[i].path) != h.exportId
    {
      e := e + 1;
    }
    if e == |exports| {
      return None;
    }
    if h.dsname == [] {
      return Some(Cut(exports[e].path));
    }
    var datasets := exports[e].datasets;
    var d: nat := 0;
    while d < |datasets| && datasets[d].dsname != h.dsname
      invariant d <= |datasets| && forall i | 0 <= i < d :: datasets[i].dsname != h.dsname
    {
      d := d + 1;
    }
    if d == |datasets| {
      return None;
    }
    var dir := exports[e].path + [SLASH] + datasets[d].Dirname();
    if h.member == [] {
      return Some(Cut(dir));
    }
    return Some(Cut(dir + [SLASH] + FileName(h.member, datasets[d].ext)));
  }

  /** Different exports have different hashes. */
  ghost predicate DistinctIds(exports: seq<Export>, id: Text -> nat) {
    forall i, j | 0 <= i < j < |exports| :: id(exports[i].path) != id(exports[j].path)
  }

  /** The place a handle was made from, with the file name its member is shown under. */
  function Shown(exports: seq<Export>, p: Place): Place
    requires Exists(exports, p)
  {
    if p.File? && MemberOf(p.leaf, exports[p.e].datasets[p.d].ext).Some?
    then p.(leaf := FileName(MemberOf(p.leaf, exports[p.e].datasets[p.d].ext).value, exports[p.e].datasets[p.d].ext))
    else p
  }

  lemma DatasetFound(x: Export, d: nat)
    requires SoundExport(x) && d < |x.datasets|
    ensures FirstDataset(x.datasets, x.datasets[d].dsname) == d && x.datasets[d].dsname != []
  {
    assert ValidDataset(x.datasets[d]);
  }

  /** The path of the place that `path` names, under the file name its member is shown by. */
  function Canonical(exports: seq<Export>, path: Text): Text
    requires Exists(exports, PlaceFrom(exports, Cut(path), 0))
  {
    var p := Shown(exports, PlaceFrom(exports, Cut(path), 0));
    if Exists(exports, p) then PathOf(exports, p) else []
  }

  /** It always fits its buffer: it is no longer than the path it was made from. */
  lemma CanonicalFits(exports: seq<Export>, path: Text)
    requires Exists(exports, PlaceFrom(exports, Cut(path), 0))
    ensures |Canonical(exports, path)| <= |Cut(path)| <= 255
  {
    var p := PlaceFrom(exports, Cut(path), 0);
    PathNoLonger(exports, Cut(path), 0);
    if p.File? && MemberOf(p.leaf, exports[p.e].datasets[p.d].ext).Some? {
      NameNoLonger(p.leaf, exports[p.e].datasets[p.d].ext);
    }
  }

  lemma Joined(base: Text, dir: Text, leaf: Text)
    ensures base + [SLASH] + dir + [SLASH] + leaf == base + [SLASH] + (dir + [SLASH] + leaf)
  {
  }

  lemma ExportFound(exports: seq<Export>, id: Text -> nat, e: nat)
    requires DistinctIds(exports, id) && e < |exports|
    ensures FirstExport(exports, id, id(exports[e].path)) == e
  {
  }

  lemma ResolvedFile(exports: seq<Export>, id: Text -> nat, e: nat, d: nat, m: Text)
    requires Sound(exports) && DistinctIds(exports, id)
    requires e < |exports| && d < |exports[e].datasets| && ValidMember(m)
    ensures var x := exports[e].datasets[d];
      var p := File(e, d, FileName(m, x.ext));
      Exists(exports, p) && Resolved(exports, id, Handle(id(exports[e].path), x.dsname, m)) == Some(Cut(PathOf(exports, p)))
  {
    var x := exports[e].datasets[d];
    ExportFound(exports, id, e);
    DatasetFound(exports[e], d);
    assert ValidDataset(x);
    FileNameRoundTrip(m, x.ext);
    Joined(exports[e].path, x.Dirname(), FileName(m, x.ext));
  }

  /** Resolving a handle gives the whole path of the place it was made from. */
  lemma ResolvesTo(exports: seq<Export>, id: Text -> nat, path: Text)
    requires Sound(exports) && DistinctIds(exports, id) && FromPath(exports, id, path).Some?
    ensures var p := PlaceFrom(exports, Cut(path), 0);
      && Exists(exports, p) && Exists(exports, Shown(exports, p))
      && Canonical(exports, path) == PathOf(exports, Shown(exports, p))
      && Resolved(exports, id, FromPath(exports, id, path).value) == Some(Canonical(exports, path))
  {
    PlaceExists(exports, Cut(path), 0);
    CanonicalFits(exports, path);
    assert Cut(Canonical(exports, path)) == Canonical(exports, path);
    var p := PlaceFrom(exports, Cut(path), 0);
    if p.File? {
      var ext := exports[p.e].datasets[p.d].ext;
      ResolvedFile(exports, id, p.e, p.d, MemberOf(p.leaf, ext).value);
      assert ValidDataset(exports[p.e].datasets[p.d]);
    } else {
      ExportFound(exports, id, p.e);
      if p.Dir? {
        DatasetFound(exports[p.e], p.d);
      }
    }
  }

  /** Resolving a handle made from any path, and making it again, gives the same handle. */
  lemma HandleRoundTrip(exports: seq<Export>, id: Text -> nat, path: Text)
    requires Sound(exports) && DistinctIds(exports, id) && FromPath(exports, id, path).Some?
    ensures Exists(exports, PlaceFrom(exports, Cut(path), 0))
    ensures var h := FromPath(exports, id, path);
      Resolved(exports, id, h.value).Some? && FromPath(exports, id, Resolved(exports, id, h.value).value) == h
  {
    ResolvesTo(exports, id, path);
    var p, canon := PlaceFrom(exports, Cut(path), 0), Canonical(exports, path);
    CanonicalFits(exports, path);
    assert Cut(canon) == canon;
    PlaceRoundTrip(exports, Shown(exports, p));
    assert SoundExport(exports[p.e]);
    if p.File? {
      assert ValidDataset(exports[p.e].datasets[p.d]);
      FileNameRoundTrip(MemberOf(p.leaf, exports[p.e].datasets[p.d].ext).value, exports[p.e].datasets[p.d].ext);
    }
  }

  /** Two paths with one handle name the same export, dataset and, but for case, file, when every
      extension has at most 14 characters. */
  lemma OneObjectPerHandle(exports: seq<Export>, id: Text -> nat, a: Text, b: Text)
    requires Sound(exports) && DistinctIds(exports, id)
    requires FromPath(exports, id, a).Some? && FromPath(exports, id, a) == FromPath(exports, id, b)
    ensures var p, q := PlaceFrom(exports, Cut(a), 0), PlaceFrom(exports, Cut(b), 0);
      && Exists(exports, p) && (p == q || (p.File? && q.File? && p.e == q.e && p.d == q.d))
      && (p.File? && |exports[p.e].datasets[p.d].ext| <= 14 ==> Lower(p.leaf) == Lower(q.leaf))
  {
    PlaceExists(exports, Cut(a), 0);
    PlaceExists(exports, Cut(b), 0);
    var p, q := PlaceFrom(exports, Cut(a), 0), PlaceFrom(exports, Cut(b), 0);
    var h := FromPath(exports, id, a).value;
    assert FirstExport(exports, id, h.exportId) == p.e == q.e;
    var x := exports[p.e];
    assert SoundExport(x);
    if !p.Root? {
      DatasetFound(x, p.d);
    }
    if !q.Root? {
      DatasetFound(x, q.d);
    }
    if p.File? && |x.datasets[p.d].ext| <= 14 {
      AcceptedLeaf(p.leaf, x.datasets[p.d].ext);
      AcceptedLeaf(q.leaf, x.datasets[p.d].ext);
    }
  }

  /** The names of datasets as a handle can carry them, and hashes of 32 bits. */
  ghost predicate Carried(exports: seq<Export>, id: Text -> nat) {
    forall e | 0 <= e < |exports| ::
      id(exports[e].path) < U32 && forall d | 0 <= d < |exports[e].datasets| :: Fits(exports[e].datasets[d].dsname, 44)
  }

  lemma MemberFits(m: Text)
    requires ValidMember(m)
    ensures Fits(m, 8)
  {
  }

  lemma MadeHandleValid(exports: seq<Export>, id: Text -> nat, path: Text)
    requires Carried(exports, id) && FromPath(exports, id, path).Some?
    ensures ValidHandle(FromPath(exports, id, path).value)
  {
    PlaceExists(exports, Cut(path), 0);
    var p := PlaceFrom(exports, Cut(path), 0);
    if p.File? {
      MemberFits(MemberOf(p.leaf, exports[p.e].datasets[p.d].ext).value);
    }
  }

  /** A handle made from a path, sent to a client and sent back, still resolves to a path of the
      same object. */
  lemma HandleSurvivesWire(exports: seq<Export>, id: Text -> nat, path: Text)
    requires Sound(exports) && DistinctIds(exports, id) && Carried(exports, id) && FromPath(exports, id, path).Some?
    ensures Exists(exports, PlaceFrom(exports, Cut(path), 0))
    ensures var back := Decoded(Encoded(FromPath(exports, id, path).value));
      && back.Some? && Resolved(exports, id, back.value).Some?
      && FromPath(exports, id, Resolved(exports, id, back.value).value) == back
  {
    MadeHandleValid(exports, id, path);
    WireRoundTrip(FromPath(exports, id, path).value);
    HandleRoundTrip(exports, id, path);
  }
}
