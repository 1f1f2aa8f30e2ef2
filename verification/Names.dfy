/**
 Member names as C strings of EBCDIC bytes: their order under strcmp, and the eight-byte
 cookies that carry them between READDIR calls (src/mvsvfs.c).
 */
module Names {
  import opened Bytes

  type Name = seq<byte>

  const BLANK: byte := 0x40

  /** strcmp: the first difference decides, and the end of a string sorts before everything. */
  function Compare(a: Name, b: Name): int
    decreases |a|
  {
    if a == [] then (if b == [] then 0 else -1)
    else if b == [] then 1
    else if a[0] < b[0] then -1
    else if a[0] > b[0] then 1
    else Compare(a[1..], b[1..])
  }

  predicate Less(a: Name, b: Name) {
    Compare(a, b) < 0
  }

  lemma {:induction false} CompareSame(a: Name, b: Name)
    ensures Compare(a, b) == 0 <==> a == b
    ensures Compare(a, b) == -Compare(b, a)
    decreases |a|
  {
    if a != [] && b != [] {
      CompareSame(a[1..], b[1..]);
      if a[0] == b[0] && a[1..] == b[1..] {
        assert a == [a[0]] + a[1..] && b == [b[0]] + b[1..];
      }
    }
  }

  lemma {:induction false} LessTransitive(a: Name, b: Name, c: Name)
    requires Compare(a, b) <= 0 && Compare(b, c) <= 0
    ensures Compare(a, c) <= 0
    ensures Less(a, b) || Less(b, c) ==> Less(a, c)
    decreases |a|
  {
    if a != [] && b != [] && c != [] && a[0] == b[0] == c[0] {
      LessTransitive(a[1..], b[1..], c[1..]);
    }
  }

  /** Strictly ascending: a PDS directory, or any part of one. */
  ghost predicate Ascending(names: seq<Name>) {
    forall i, j | 0 <= i < j < |names| :: Less(names[i], names[j])
  }

  /** A member name: one to eight bytes, all above blank. */
  predicate ValidName(n: Name) {
    1 <= |n| <= 8 && forall i | 0 <= i < |n| :: n[i] > BLANK
  }

  function Blanks(n: nat): (b: seq<byte>)
    ensures |b| == n && forall i | 0 <= i < n :: b[i] == BLANK
  {
    seq(n, _ => BLANK)
  }

  /** A name in its fixed eight-byte field. */
  function Padded(n: Name): (p: seq<byte>)
    requires |n| <= 8
    ensures |p| == 8
  {
    n + Blanks(8 - |n|)
  }

  /** A field without its trailing blanks. */
  function Trimmed(field: seq<byte>): seq<byte> {
    if field == [] || field[|field| - 1] != BLANK then field else Trimmed(field[..|field| - 1])
  }

  method BytesToString(field: seq<byte>) returns (name: Name)
    ensures name == Trimmed(field)
  {
    var x := |field|;
    assert field[..x] == field;
    while x > 0 && field[x - 1] == BLANK
      invariant 0 <= x <= |field| && Trimmed(field[..x]) == Trimmed(field)
    {
      assert field[..x][..x - 1] == field[..x - 1];
      x := x - 1;
    }
    name := field[..x];
  }

  /** Trimming undoes padding. */
  lemma {:induction false} TrimmedPadding(n: Name, k: nat)
    ensures Trimmed(n + Blanks(k)) == Trimmed(n)
    ensures n == [] || n[|n| - 1] != BLANK ==> Trimmed(n + Blanks(k)) == n
  {
    if k == 0 {
      assert n + Blanks(0) == n;
    } else {
      assert (n + Blanks(k))[..|n| + k - 1] == n + Blanks(k - 1);
      TrimmedPadding(n, k - 1);
    }
  }

  /** A directory read that starts at name `s` takes member `n` in: the fixed field of `n`, padded
      with blanks, is not below `s` with its terminating NUL. */
  predicate Reaches(n: Name, s: Name) {
    Compare(n + Blanks(8), s + Zeros(8)) >= 0
  }

  /** The fixed field orders names as strcmp does. */
  lemma {:induction false} PaddedOrder(a: Name, b: Name)
    requires Less(a, b) && forall i | 0 <= i < |b| :: b[i] > BLANK
    ensures Less(a + Blanks(8), b + Blanks(8))
    decreases |a|
  {
    if a != [] && a[0] == b[0] {
      PaddedOrder(a[1..], b[1..]);
      assert (a + Blanks(8))[1..] == a[1..] + Blanks(8);
      assert (b + Blanks(8))[1..] == b[1..] + Blanks(8);
    }
  }

  /** Nothing at or above the start is missed; and nothing below it is taken in when the start
      is made of member characters. */
  lemma {:induction false} ReachesAbove(n: Name, s: Name)
    requires forall i | 0 <= i < |n| :: n[i] > BLANK
    ensures Compare(n, s) >= 0 ==> Reaches(n, s)
    ensures (forall i | 0 <= i < |s| :: s[i] > BLANK) ==> (Reaches(n, s) <==> Compare(n, s) >= 0)
    decreases |n|
  {
    if n != [] && s != [] && n[0] == s[0] {
      ReachesAbove(n[1..], s[1..]);
      assert (n + Blanks(8))[1..] == n[1..] + Blanks(8);
      assert (s + Zeros(8))[1..] == s[1..] + Zeros(8);
    }
  }

  lemma ReachesOn(a: Name, b: Name, s: Name)
    requires Reaches(a, s) && Less(a, b) && ValidName(b)
    ensures Reaches(b, s)
  {
    PaddedOrder(a, b);
    CompareSame(a + Blanks(8), s + Zeros(8));
    CompareSame(b + Blanks(8), s + Zeros(8));
    LessTransitive(s + Zeros(8), a + Blanks(8), b + Blanks(8));
  }

  /** The cookie of a name: copied, then NULs turned to blanks from the end. */
  method ToCookie(name: Name) returns (cookie: seq<byte>)
    requires ValidName(name)
    ensures cookie == Padded(name)
  {
    cookie := name + Zeros(8 - |name|);
    var i := 7;
    while i > 0 && cookie[i] == 0
      invariant |cookie| == 8 && |name| - 1 <= i <= 7
      invariant forall j | 0 <= j < 8 :: cookie[j] == if j < |name| then name[j] else if j <= i then 0 else BLANK
    {
      cookie := cookie[i := BLANK];
      i := i - 1;
    }
  }

  /** The string a cookie holds: up to the first blank, and as a C string up to the first NUL. */
  function CookieName(cookie: seq<byte>): Name {
    if cookie == [] || cookie[0] == BLANK || cookie[0] == 0 then []
    else [cookie[0]] + CookieName(cookie[1..])
  }

  method FromCookie(cookie: seq<byte>) returns (name: Name)
    requires |cookie| == 8
    ensures name == CookieName(cookie)
  {
    name := [];
    for i := 0 to 8
      invariant name + CookieName(cookie[i..]) == CookieName(cookie)
    {
      if cookie[i] == BLANK || cookie[i] == 0 {
        return;
      }
      NameOn(name, cookie, i);
      name := name + [cookie[i]];
    }
  }

  lemma NameOn(name: Name, cookie: seq<byte>, i: nat)
    requires i < |cookie| && cookie[i] != BLANK && cookie[i] != 0
    ensures name + CookieName(cookie[i..]) == name + [cookie[i]] + CookieName(cookie[i + 1..])
  {
    assert cookie[i..][1..] == cookie[i + 1..];
  }

  lemma {:induction false} CookieNameOf(name: Name, tail: seq<byte>)
    requires forall i | 0 <= i < |name| :: name[i] > BLANK
    requires tail == [] || tail[0] == BLANK
    ensures CookieName(name + tail) == name
  {
    if name != [] {
      assert (name + tail)[1..] == name[1..] + tail;
      CookieNameOf(name[1..], tail);
    } else {
      assert name + tail == tail;
    }
  }

  /** A cookie gives its name back, and the zero cookie is the start of the directory. */
  lemma CookieRoundTrip(name: Name)
    requires ValidName(name)
    ensures CookieName(Padded(name)) == name
    ensures CookieName(Zeros(8)) == []
  {
    CookieNameOf(name, Blanks(8 - |name|));
  }
}
