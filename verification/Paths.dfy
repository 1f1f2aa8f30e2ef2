/**
 Paths below an export and the member files in them (src/mvsio.c, and the file names that
 src/mvsvfs.c generates). One character set stands for both ASCII and EBCDIC.
 */
module Paths {
  import opened Bytes

  /** A string without its terminating NUL. */
  type Text = seq<byte>

  const SLASH: byte := 0x2F
  const DOT: byte := 0x2E

  // ---- characters ----

  predicate IsUpper(c: byte) { 0x41 <= c <= 0x5A }
  predicate IsLower(c: byte) { 0x61 <= c <= 0x7A }
  predicate IsDigit(c: byte) { 0x30 <= c <= 0x39 }
  predicate IsNational(c: byte) { c == 0x40 || c == 0x23 || c == 0x24 }

  function LowerChar(c: byte): byte { if IsUpper(c) then c + 0x20 else c }
  function UpperChar(c: byte): byte { if IsLower(c) then c - 0x20 else c }

  function Lower(s: Text): (r: Text)
    ensures |r| == |s| && forall i | 0 <= i < |s| :: r[i] == LowerChar(s[i])
  {
    seq(|s|, i requires 0 <= i < |s| => LowerChar(s[i]))
  }

  function Upper(s: Text): (r: Text)
    ensures |r| == |s| && forall i | 0 <= i < |s| :: r[i] == UpperChar(s[i])
  {
    seq(|s|, i requires 0 <= i < |s| => UpperChar(s[i]))
  }

  lemma LowerUpper(s: Text)
    ensures Lower(Upper(s)) == Lower(s)
    ensures (forall i | 0 <= i < |s| :: !IsLower(s[i])) ==> Upper(Lower(s)) == s
  {
  }

  lemma LowerAppend(a: Text, b: Text)
    ensures Lower(a + b) == Lower(a) + Lower(b)
  {
  }

  /** The first `c` in `s`, or the end of `s`. */
  function First(s: Text, c: byte): (k: nat)
    ensures k <= |s| && (forall i | 0 <= i < k :: s[i] != c) && (k < |s| ==> s[k] == c)
  {
    if s == [] || s[0] == c then 0 else First(s[1..], c) + 1
  }

  /** Where the part after the last `c` begins: 0 when there is no `c`. */
  function AfterLast(s: Text, c: byte): (k: nat)
    ensures k <= |s| && (forall i | k <= i < |s| :: s[i] != c) && (k > 0 ==> s[k - 1] == c)
  {
    if s == [] then 0 else if s[|s| - 1] == c then |s| else AfterLast(s[..|s| - 1], c)
  }

  lemma FirstIs(a: Text, c: byte, b: Text)
    requires c !in a
    ensures First(a + [c] + b, c) == |a| && First(a, c) == |a|
  {
    var s := a + [c] + b;
    assert s[|a|] == c && forall i | 0 <= i < |a| :: s[i] == a[i] && a[i] in a;
  }

  lemma {:induction false} AfterLastIs(a: Text, c: byte, b: Text)
    requires c !in b
    ensures AfterLast(a + [c] + b, c) == |a| + 1
    decreases |b|
  {
    var s := a + [c] + b;
    if b != [] {
      var k := |b| - 1;
      assert s[..|s| - 1] == a + [c] + b[..k] && s[|s| - 1] == b[k];
      AfterLastIs(a, c, b[..k]);
    }
  }

  // ---- member names and member files ----

  predicate ValidMember(m: Text) {
    && 1 <= |m| <= 8 && !IsDigit(m[0])
    && forall i | 0 <= i < |m| :: IsUpper(m[i]) || IsDigit(m[i]) || IsNational(m[i])
  }

  method MemberNameValid(m: Text) returns (ok: bool)
    ensures ok == ValidMember(m)
  {
    if |m| == 0 || |m| > 8 {
      return false;
    }
    if !(IsUpper(m[0]) || IsNational(m[0])) {
      return false;
    }
    for i := 1 to |m|
      invariant forall j | 1 <= j < i :: IsUpper(m[j]) || IsDigit(m[j]) || IsNational(m[j])
    {
      if !(IsUpper(m[i]) || IsDigit(m[i]) || IsNational(m[i])) {
        return false;
      }
    }
    return true;
  }

  /** An extension as configuration admits it; empty for none. */
  predicate ValidExt(ext: Text) {
    |ext| <= 15 && DOT !in ext && SLASH !in ext
  }

  /** The file name under which a directory shows a member. */
  function FileName(m: Text, ext: Text): Text {
    if ext == [] then Lower(m) else Lower(m) + [DOT] + ext
  }

  /** A file name up to its last dot, and at most fifteen characters after it. */
  function Stem(leaf: Text): Text {
    if AfterLast(leaf, DOT) > 0 then leaf[..AfterLast(leaf, DOT) - 1] else leaf
  }

  function LeafExt(leaf: Text): Text {
    var e := leaf[AfterLast(leaf, DOT)..];
    if AfterLast(leaf, DOT) > 0 then e[..Min(|e|, 15)] else []
  }

  /** The member a file name stands for. Without an extension the whole name is the member. */
  function MemberOf(leaf: Text, ext: Text): (m: Option<Text>)
    ensures m.Some? ==> ValidMember(m.value)
  {
    var m := Upper(if ext != [] then Stem(leaf) else leaf);
    if !ValidMember(m) then None
    else if ext != [] && Lower(LeafExt(leaf)) != Lower(ext) then None
    else Some(m)
  }

  /** A name with an extension, taken apart. */
  lemma Dotted(stem: Text, e: Text)
    requires DOT !in e
    ensures Stem(stem + [DOT] + e) == stem && LeafExt(stem + [DOT] + e) == e[..Min(|e|, 15)]
  {
    var leaf := stem + [DOT] + e;
    AfterLastIs(stem, DOT, e);
    assert leaf[..|stem|] == stem && leaf[|stem| + 1..] == e;
  }

  lemma DottedMember(m: Text, e: Text, ext: Text)
    requires ValidMember(m) && DOT !in e && ext != []
    ensures MemberOf(Lower(m) + [DOT] + e, ext) == if Lower(e[..Min(|e|, 15)]) == Lower(ext) then Some(m) else None
  {
    LowerUpper(m);
    Dotted(Lower(m), e);
  }

  /** The generated file name stands for its member. */
  lemma FileNameRoundTrip(m: Text, ext: Text)
    requires ValidMember(m) && ValidExt(ext)
    ensures MemberOf(FileName(m, ext), ext) == Some(m)
    ensures SLASH !in FileName(m, ext) && FileName(m, ext) != []
  {
    if ext != [] {
      DottedMember(m, ext, ext);
      assert ext[..|ext|] == ext;
    } else {
      LowerUpper(m);
    }
  }

  /** An accepted file name with an extension is the member and the dot, and an extension that
      agrees but for case in the fifteen characters compared. */
  lemma AcceptedDotted(leaf: Text, ext: Text)
    requires ext != [] && MemberOf(leaf, ext).Some?
    ensures var e := leaf[AfterLast(leaf, DOT)..];
      && leaf == Stem(leaf) + [DOT] + e
      && Lower(Stem(leaf)) == Lower(MemberOf(leaf, ext).value)
      && Lower(e[..Min(|e|, 15)]) == Lower(ext)
  {
    LowerUpper(Stem(leaf));
    assert |LeafExt(leaf)| == |ext|;
    LeafParts(leaf);
  }

  /** A file name with a dot, put together again. */
  lemma LeafParts(leaf: Text)
    requires AfterLast(leaf, DOT) > 0
    ensures leaf == Stem(leaf) + [DOT] + leaf[AfterLast(leaf, DOT)..]
  {
  }

  /** The generated file name is no longer than any that is accepted for the member. */
  lemma NameNoLonger(leaf: Text, ext: Text)
    requires MemberOf(leaf, ext).Some?
    ensures |FileName(MemberOf(leaf, ext).value, ext)| <= |leaf|
  {
    if ext != [] {
      AcceptedDotted(leaf, ext);
      var e := leaf[AfterLast(leaf, DOT)..];
      assert |Lower(e[..Min(|e|, 15)])| == |Lower(ext)|;
    }
  }

  lemma ShortExt(e: Text, ext: Text)
    requires Lower(e[..Min(|e|, 15)]) == Lower(ext) && |ext| <= 14
    ensures Lower(e) == Lower(ext)
  {
    assert |Lower(e[..Min(|e|, 15)])| == |Lower(ext)|;
    assert e[..|e|] == e;
  }

  lemma LowerDotted(stem: Text, e: Text)
    ensures Lower(stem + [DOT] + e) == Lower(stem) + [DOT] + Lower(e)
  {
    LowerAppend(stem + [DOT], e);
    LowerAppend(stem, [DOT]);
    assert Lower([DOT]) == [DOT];
  }

  function LowerName(m: Text, ext: Text): Text {
    if ext == [] then Lower(m) else Lower(m) + [DOT] + Lower(ext)
  }

  /** With an extension shorter than the fifteen characters compared, an accepted file name is
      the generated one but for case. */
  lemma AcceptedLeaf(leaf: Text, ext: Text)
    requires |ext| <= 14 && MemberOf(leaf, ext).Some?
    ensures Lower(leaf) == LowerName(MemberOf(leaf, ext).value, ext)
  {
    if ext == [] {
      LowerUpper(leaf);
    } else {
      AcceptedDotted(leaf, ext);
      var e := leaf[AfterLast(leaf, DOT)..];
      ShortExt(e, ext);
      LowerDotted(Stem(leaf), e);
    }
  }

  /** With fifteen characters of extension, a sixteenth is not looked at. */
  lemma SixteenthIgnored(m: Text, ext: Text, c: byte)
    requires ValidMember(m) && ValidExt(ext) && |ext| == 15 && c != DOT
    ensures MemberOf(FileName(m, ext) + [c], ext) == MemberOf(FileName(m, ext), ext) == Some(m)
  {
    FileNameRoundTrip(m, ext);
    var e := ext + [c];
    assert FileName(m, ext) + [c] == Lower(m) + [DOT] + e;
    DottedMember(m, e, ext);
    assert e[..15] == ext;
  }

  /** So one member has one file name but for case exactly when the extension has at most 14. */
  lemma OneLeafPerMember(ext: Text)
    requires ValidExt(ext)
    ensures |ext| <= 14 <==>
      (forall a, b | MemberOf(a, ext).Some? && MemberOf(a, ext) == MemberOf(b, ext) :: Lower(a) == Lower(b))
  {
    if |ext| <= 14 {
      forall a, b | MemberOf(a, ext).Some? && MemberOf(a, ext) == MemberOf(b, ext)
        ensures Lower(a) == Lower(b)
      {
        AcceptedLeaf(a, ext);
        AcceptedLeaf(b, ext);
      }
    } else {
      var a, b := TwoLeaves(ext);
    }
  }

  lemma TwoLeaves(ext: Text) returns (a: Text, b: Text)
    requires ValidExt(ext) && |ext| == 15
    ensures MemberOf(a, ext).Some? && MemberOf(a, ext) == MemberOf(b, ext) && Lower(a) != Lower(b)
  {
    var m: Text := [0x41];
    SixteenthIgnored(m, ext, 0x41);
    a, b := FileName(m, ext), FileName(m, ext) + [0x41];
    assert |Lower(a)| != |Lower(b)|;
  }

  // ---- exports ----

  /** A dataset shown as a directory named by its lower-case name. */
  datatype Dataset = Dataset(dsname: Text, ext: Text) {
    function Dirname(): Text { Lower(dsname) }
  }

  datatype Export = Export(path: Text, datasets: seq<Dataset>)

  /** What a path names: nothing exported, an export's root, the directory of its dataset `d`, or
      a file in that directory. */
  datatype Place = Nowhere | Root(e: nat) | Dir(e: nat, d: nat) | File(e: nat, d: nat, leaf: Text)

  /** `path` goes on below `base`. */
  predicate Under(path: Text, base: Text) {
    |base| < |path| && path[..|base|] == base && path[|base|] == SLASH
  }

  /** The first dataset with this directory name, or their number. */
  function FirstDir(datasets: seq<Dataset>, name: Text): (d: nat)
    ensures d <= |datasets| && (d < |datasets| ==> datasets[d].Dirname() == name)
    ensures forall i | 0 <= i < d :: datasets[i].Dirname() != name
  {
    if datasets == [] || datasets[0].Dirname() == name then 0 else FirstDir(datasets[1..], name) + 1
  }

  /** What the rest of a path names below export `e`. */
  function Within(x: Export, e: nat, rel: Text): Place {
    var k := First(rel, SLASH);
    if k == 0 || k >= 45 then Nowhere
    else
      var d := FirstDir(x.datasets, rel[..k]);
      if d == |x.datasets| then Nowhere
      else if k == |rel| || k + 1 == |rel| then Dir(e, d)
      else if SLASH in rel[k + 1..] then Nowhere
      else File(e, d, rel[k + 1..])
  }

  /** The first export that a path equals or goes below decides what it names. */
  function PlaceFrom(exports: seq<Export>, path: Text, i: nat): Place
    requires i <= |exports|
    decreases |exports| - i
  {
    if i == |exports| then Nowhere
    else if path == exports[i].path then Root(i)
    else if Under(path, exports[i].path) then Within(exports[i], i, path[|exports[i].path| + 1..])
    else PlaceFrom(exports, path, i + 1)
  }

  method FindDir(datasets: seq<Dataset>, name: Text) returns (d: nat)
    ensures d == FirstDir(datasets, name)
  {
    for i := 0 to |datasets|
      invariant forall j | 0 <= j < i :: datasets[j].Dirname() != name
    {
      if datasets[i].Dirname() == name {
        return i;
      }
    }
    return |datasets|;
  }

  method PathType(exports: seq<Export>, path: Text) returns (p: Place)
    ensures p == PlaceFrom(exports, path, 0)
  {
    for i := 0 to |exports|
      invariant PlaceFrom(exports, path, i) == PlaceFrom(exports, path, 0)
    {
      var base := exports[i].path;
      if path == base {
        return Root(i);
      }
      if |base| >= |path| || path[..|base|] != base || path[|base|] != SLASH {
        continue;
      }
      var rel := path[|base| + 1..];
      var k := First(rel, SLASH);
      if k == 0 || k >= 45 {
        return Nowhere;
      }
      var d := FindDir(exports[i].datasets, rel[..k]);
      if d == |exports[i].datasets| {
        return Nowhere;
      }
      if k == |rel| || k + 1 == |rel| {
        return Dir(i, d);
      }
      if SLASH in rel[k + 1..] {
        return Nowhere;
      }
      return File(i, d, rel[k + 1..]);
    }
    return Nowhere;
  }

  /** A dataset as configuration admits it. */
  predicate ValidDataset(x: Dataset) {
    1 <= |x.dsname| <= 44 && SLASH !in x.Dirname() && ValidExt(x.ext)
  }

  /** Exports that do not overlap, each with directories of different names. */
  ghost predicate Sound(exports: seq<Export>) {
    && (forall i, j | 0 <= i < |exports| && 0 <= j < |exports| && i != j ::
          exports[i].path != exports[j].path && !Under(exports[j].path, exports[i].path))
    && forall i | 0 <= i < |exports| :: SoundExport(exports[i])
  }

  ghost predicate SoundExport(x: Export) {
    && (forall d | 0 <= d < |x.datasets| :: ValidDataset(x.datasets[d]))
    && forall c, d | 0 <= c < d < |x.datasets| :: x.datasets[c].Dirname() != x.datasets[d].Dirname()
  }

  /** The path of a place. */
  function PathOf(exports: seq<Export>, p: Place): Text
    requires Exists(exports, p)
  {
    match p
    case Root(e) => exports[e].path
    case Dir(e, d) => exports[e].path + [SLASH] + exports[e].datasets[d].Dirname()
    case File(e, d, leaf) => exports[e].path + [SLASH] + (exports[e].datasets[d].Dirname() + [SLASH] + leaf)
  }

  predicate Exists(exports: seq<Export>, p: Place) {
    && !p.Nowhere? && p.e < |exports|
    && (!p.Root? ==> p.d < |exports[p.e].datasets|)
    && (p.File? ==> p.leaf != [] && SLASH !in p.leaf)
  }

  lemma {:induction false} PlaceExists(exports: seq<Export>, path: Text, i: nat)
    requires i <= |exports|
    ensures var p := PlaceFrom(exports, path, i);
      p.Nowhere? || Exists(exports, p)
    decreases |exports| - i
  {
    if i < |exports| {
      PlaceExists(exports, path, i + 1);
    }
  }

  /** The path of a place is no longer than any path that names it. */
  lemma {:induction false} PathNoLonger(exports: seq<Export>, path: Text, i: nat)
    requires i <= |exports| && !PlaceFrom(exports, path, i).Nowhere?
    ensures Exists(exports, PlaceFrom(exports, path, i))
    ensures |PathOf(exports, PlaceFrom(exports, path, i))| <= |path|
    decreases |exports| - i
  {
    PlaceExists(exports, path, i);
    if path != exports[i].path && !Under(path, exports[i].path) {
      PathNoLonger(exports, path, i + 1);
    }
  }

  lemma Nested(path: Text, a: Text, b: Text)
    ensures Under(path, a) && Under(path, b) ==> a == b || Under(a, b) || Under(b, a)
  {
    if Under(path, a) && Under(path, b) {
      assert |a| <= |b| ==> path[..|b|][..|a|] == path[..|a|];
      assert |b| <= |a| ==> path[..|a|][..|b|] == path[..|b|];
    }
  }

  /** The leaf of a file is what follows the last slash of its path. */
  lemma {:induction false} LeafAfterLastSlash(exports: seq<Export>, path: Text, i: nat)
    requires i <= |exports| && PlaceFrom(exports, path, i).File?
    ensures PlaceFrom(exports, path, i).leaf == path[AfterLast(path, SLASH)..]
    decreases |exports| - i
  {
    var base := exports[i].path;
    if path != base && !Under(path, base) {
      LeafAfterLastSlash(exports, path, i + 1);
    } else {
      var rel := path[|base| + 1..];
      var k := First(rel, SLASH);
      var front, leaf := path[..|base| + 1 + k], rel[k + 1..];
      assert path == front + [SLASH] + leaf;
      AfterLastIs(front, SLASH, leaf);
      assert path[|front| + 1..] == leaf;
    }
  }

  /** No other export takes a path that belongs to export `k`. */
  lemma OnlyOne(exports: seq<Export>, path: Text, k: nat, i: nat)
    requires Sound(exports) && k < |exports| && i < |exports| && i != k
    requires path == exports[k].path || Under(path, exports[k].path)
    ensures path != exports[i].path && !Under(path, exports[i].path)
  {
    var a, b := exports[i].path, exports[k].path;
    Nested(path, a, b);
  }

  lemma {:induction false} PlaceIn(exports: seq<Export>, path: Text, k: nat, i: nat)
    requires Sound(exports) && i <= k < |exports|
    requires path == exports[k].path || Under(path, exports[k].path)
    ensures PlaceFrom(exports, path, i)
         == if path == exports[k].path then Root(k) else Within(exports[k], k, path[|exports[k].path| + 1..])
    decreases k - i
  {
    if i < k {
      OnlyOne(exports, path, k, i);
      PlaceIn(exports, path, k, i + 1);
    }
  }

  lemma DirFound(x: Export, d: nat)
    requires SoundExport(x) && d < |x.datasets|
    ensures FirstDir(x.datasets, x.datasets[d].Dirname()) == d
  {
  }

  lemma WithinDir(x: Export, e: nat, d: nat)
    requires SoundExport(x) && d < |x.datasets|
    ensures Within(x, e, x.datasets[d].Dirname()) == Dir(e, d)
  {
    var name := x.datasets[d].Dirname();
    assert ValidDataset(x.datasets[d]);
    FirstIs(name, SLASH, []);
    assert name[..|name|] == name;
    DirFound(x, d);
  }

  lemma WithinFile(x: Export, e: nat, d: nat, leaf: Text)
    requires SoundExport(x) && d < |x.datasets| && leaf != [] && SLASH !in leaf
    ensures Within(x, e, x.datasets[d].Dirname() + [SLASH] + leaf) == File(e, d, leaf)
  {
    var name := x.datasets[d].Dirname();
    var rel := name + [SLASH] + leaf;
    assert ValidDataset(x.datasets[d]);
    FirstIs(name, SLASH, leaf);
    assert rel[..|name|] == name && rel[|name| + 1..] == leaf;
    DirFound(x, d);
  }

  lemma Below(base: Text, rel: Text)
    ensures Under(base + [SLASH] + rel, base) && (base + [SLASH] + rel)[|base| + 1..] == rel
    ensures base + [SLASH] + rel != base
  {
    var path := base + [SLASH] + rel;
    assert path[..|base|] == base && path[|base|] == SLASH;
    assert |path| > |base|;
  }

  /** Every place has a path, and the path names it. */
  lemma PlaceRoundTrip(exports: seq<Export>, p: Place)
    requires Sound(exports) && Exists(exports, p)
    ensures PlaceFrom(exports, PathOf(exports, p), 0) == p
  {
    var x := exports[p.e];
    match p {
      case Root(_) =>
      case Dir(_, d) =>
        Below(x.path, x.datasets[d].Dirname());
        WithinDir(x, p.e, d);
      case File(_, d, leaf) =>
        Below(x.path, x.datasets[d].Dirname() + [SLASH] + leaf);
        WithinFile(x, p.e, d, leaf);
    }
    PlaceIn(exports, PathOf(exports, p), p.e, 0);
  }
}
