/**
 ISPF statistics in the user data of a directory entry (src/mvspdir.c): packed-decimal dates in
 local time, halfword counts and a user id, and what repeated flushes make of them.
 */
module IspfStats {
  import opened Bytes
  import opened Names

  const DAY: int := 86400

  // ---- the calendar ----

  predicate IsLeap(year: int) {
    year % 4 == 0 && (year % 100 != 0 || year % 400 == 0)
  }

  function YearLength(year: int): nat {
    if IsLeap(year) then 366 else 365
  }

  /** Days from the start of 1970 to the start of `year`, one year at a time. */
  function YearStart(year: int): nat
    requires year >= 1970
    decreases year
  {
    if year == 1970 then 0 else YearStart(year - 1) + YearLength(year - 1)
  }

  /** The year that holds the day `days` after the start of `year`, and the day within it. */
  function YearAndDay(year: int, days: nat): (r: (int, nat))
    requires year >= 1970
    ensures r.0 >= year && r.1 < YearLength(r.0)
    ensures YearStart(year) + days == YearStart(r.0) + r.1
    ensures 365 * (r.0 - year) <= days
    decreases days
  {
    if days < YearLength(year) then (year, days) else YearAndDay(year + 1, days - YearLength(year))
  }

  /** Leap years up to year `y`, counted in closed form. */
  function Leaps(y: int): int {
    y / 4 - y / 100 + y / 400
  }

  lemma LeapStep(y: int)
    ensures Leaps(y) - Leaps(y - 1) == if IsLeap(y) then 1 else 0
  {
    Crossing(y, 4);
    Crossing(y, 100);
    Crossing(y, 400);
    Divides(y);
  }

  /** What 400 divides 100 divides, and what 100 divides 4 divides. */
  lemma Divides(y: int)
    ensures y % 400 == 0 ==> y % 100 == 0
    ensures y % 100 == 0 ==> y % 4 == 0
  {
    if y % 400 == 0 {
      Multiple100(y, 4 * (y / 400));
    }
    if y % 100 == 0 {
      Multiple4(y, 25 * (y / 100));
    }
  }

  lemma Multiple100(y: int, k: int)
    requires y == 100 * k
    ensures y % 100 == 0
  {
  }

  lemma Multiple4(y: int, k: int)
    requires y == 4 * k
    ensures y % 4 == 0
  {
  }

  lemma Crossing(y: int, k: int)
    requires k == 4 || k == 100 || k == 400
    ensures y / k - (y - 1) / k == if y % k == 0 then 1 else 0
  {
  }

  /** The closed form counts what the years add up to. */
  lemma {:induction false} YearStartClosed(year: int)
    requires year >= 1970
    ensures YearStart(year) == (year - 1970) * 365 + Leaps(year - 1) - Leaps(1969)
    decreases year
  {
    if year > 1970 {
      YearStartClosed(year - 1);
      LeapStep(year - 1);
    }
  }

  const MDAYS: seq<nat> := [0, 31, 59, 90, 120, 151, 181, 212, 243, 273, 304, 334]

  function MonthLength(year: int, mon: nat): nat
    requires mon < 12
  {
    if mon == 1 then (if IsLeap(year) then 29 else 28)
    else if mon == 3 || mon == 5 || mon == 8 || mon == 10 then 30 else 31
  }

  /** Days of the year before month `mon`. */
  function MonthStart(year: int, mon: nat): nat
    requires mon < 12
  {
    MDAYS[mon] + if IsLeap(year) && mon > 1 then 1 else 0
  }

  lemma MonthStep(year: int, mon: nat)
    requires mon < 12
    ensures mon < 11 ==> MonthStart(year, mon + 1) == MonthStart(year, mon) + MonthLength(year, mon)
    ensures mon == 11 ==> YearLength(year) == MonthStart(year, mon) + MonthLength(year, mon)
  {
  }

  /** Seconds since the epoch of a broken-down time; months and hours count from 0, days of the
      month from 1. */
  function ToSeconds(year: int, mon: nat, mday: int, hour: int, min: int, sec: int): int
    requires mon < 12
  {
    var days := (year - 1970) * 365 + (Leaps(year - 1) - (1969 / 4 - 1969 / 100 + 1969 / 400))
                + MonthStart(year, mon) + (mday - 1);
    days * 86400 + hour * 3600 + min * 60 + sec
  }

  /** The month and day of a day of the year, counted from 1; past the year it is its last day. */
  function MonthAndDay(year: int, yday: int, mon: nat): (r: (nat, int))
    requires mon <= 12
    ensures r.0 < 12
    ensures mon < 12 && MonthStart(year, mon) + yday <= YearLength(year) ==>
              MonthStart(year, r.0) + r.1 == MonthStart(year, mon) + yday
    decreases 12 - mon
  {
    if mon == 12 then (11, 31)
    else if yday <= MonthLength(year, mon) then (mon, yday)
    else MonthStep(year, mon); MonthAndDay(year, yday - MonthLength(year, mon), mon + 1)
  }

  method JulianToMonthDay(year: int, yday: int) returns (mon: nat, mday: int)
    ensures (mon, mday) == MonthAndDay(year, yday, 0)
  {
    var left := yday;
    for m := 0 to 12
      invariant MonthAndDay(year, left, m) == MonthAndDay(year, yday, 0)
    {
      if left <= MonthLength(year, m) {
        return m, left;
      }
      left := left - MonthLength(year, m);
    }
    return 11, 31;
  }

  // ---- packed decimal ----

  function ToBcd(v: nat): byte {
    (v / 10) % 10 * 16 + v % 10
  }

  function OfBcd(b: byte): nat {
    10 * (b / 16) + b % 16
  }

  lemma BcdRoundTrip(v: nat)
    requires v < 100
    ensures OfBcd(ToBcd(v)) == v
  {
  }

  /** A local time broken down by gmtime: year, day of the year from 0, second of the day. */
  function PackDate(t: nat): (b: seq<byte>)
    ensures |b| == 4
  {
    var (year, day) := YearAndDay(1970, t / DAY);
    var ddd := day + 1;
    [ToBcd((year - 1900) / 100), ToBcd((year - 1900) % 100), ToBcd(ddd / 10), ddd % 10 * 16 + 15]
  }

  function UnpackYear(b: seq<byte>): int
    requires |b| == 4
  {
    1900 + 100 * OfBcd(b[0]) + OfBcd(b[1])
  }

  function UnpackDay(b: seq<byte>): int
    requires |b| == 4
  {
    10 * OfBcd(b[2]) + b[3] / 16
  }

  /** The local time of a packed date and a time of day. */
  function UnpackDate(b: seq<byte>, hour: int, min: int, sec: int): int
    requires |b| == 4
  {
    var (mon, mday) := MonthAndDay(UnpackYear(b), UnpackDay(b), 0);
    ToSeconds(UnpackYear(b), mon, mday, hour, min, sec)
  }

  /** Times a 32-bit time_t can hold. */
  predicate InRange(t: int) {
    0 <= t < 0x8000_0000
  }

  lemma PackedDate(t: int)
    requires InRange(t)
    ensures UnpackYear(PackDate(t)) == YearAndDay(1970, t / DAY).0
    ensures UnpackDay(PackDate(t)) == YearAndDay(1970, t / DAY).1 + 1
  {
    var (year, day) := YearAndDay(1970, t / DAY);
    assert t / DAY < 365 * 9000;
    BcdRoundTrip((year - 1900) / 100);
    BcdRoundTrip((year - 1900) % 100);
    BcdRoundTrip((day + 1) / 10);
  }

  /** Every time of every day comes back, given the day's date packed and unpacked. */
  lemma DateRoundTrip(t: int, hour: int, min: int, sec: int)
    requires InRange(t)
    ensures UnpackDate(PackDate(t), hour, min, sec) == t - t % DAY + hour * 3600 + min * 60 + sec
  {
    var (year, day) := YearAndDay(1970, t / DAY);
    PackedDate(t);
    YearStartClosed(year);
    assert MonthStart(year, 0) == 0;
    var (mon, mday) := MonthAndDay(year, day + 1, 0);
    assert MonthStart(year, mon) + mday == day + 1;
    assert YearStart(year) + day == t / DAY;
  }

  // ---- the statistics ----

  datatype Stats = Stats(ver: byte, mod: byte, flags: byte, crdate: int, chgdate: int,
                         size: int, initSize: int, modCount: int, user: Name)

  const EXT: byte := 4

  /** The flags without the extended-statistics bit. */
  function Plain(flags: byte): byte {
    if flags / EXT % 2 == 1 then flags - EXT else flags
  }

  /** A count as a halfword: clamped above, and cut to sixteen bits. */
  function Clamp(v: int): (n: nat)
    ensures n < 0x1_0000 && (0 <= v ==> n == Min(v, 0xFFFF))
  {
    if v > 0xFFFF then 0xFFFF else v % 0x1_0000
  }

  function HalfWord(v: nat): (b: seq<byte>)
    requires v < 0x1_0000
    ensures |b| == 2
  {
    [v / 256, v % 256]
  }

  function OfHalfWord(b: seq<byte>): nat
    requires |b| == 2
  {
    (b[0] as int) * 256 + b[1]
  }

  /** A signed fullword. */
  function OfWord(b: seq<byte>): int
    requires |b| == 4
  {
    var v := OfHalfWord(b[..2]) * 0x1_0000 + OfHalfWord(b[2..]);
    if v < 0x8000_0000 then v else v - 0x1_0000_0000
  }

  /** The local time of a date kept in UTC. */
  function Local(date: int, tz: int): int {
    date + tz
  }

  predicate Encodable(e: Stats, tz: int) {
    InRange(Local(e.crdate, tz)) && InRange(Local(e.chgdate, tz)) && |e.user| <= 8
  }

  function TimeOfDay(t: nat): (hms: (nat, nat, nat))
    ensures hms.0 < 24 && hms.1 < 60 && hms.2 < 60 && hms.0 * 3600 + hms.1 * 60 + hms.2 == t % DAY
  {
    var s := t % DAY;
    (s / 3600, s % 3600 / 60, s % 60)
  }

  /** The bytes before the counts. */
  function Front(e: Stats, tz: int): (u: seq<byte>)
    requires Encodable(e, tz)
    ensures |u| == 14
  {
    var chg := Local(e.chgdate, tz);
    var (hour, min, sec) := TimeOfDay(chg);
    [e.ver, e.mod, Plain(e.flags), ToBcd(sec)] + PackDate(Local(e.crdate, tz)) + PackDate(chg)
    + [ToBcd(hour), ToBcd(min)]
  }

  /** The thirty bytes of statistics. */
  function Encoded(e: Stats, tz: int): (u: seq<byte>)
    requires Encodable(e, tz)
    ensures |u| == 30
  {
    Front(e, tz) + HalfWord(Clamp(e.size)) + HalfWord(Clamp(e.initSize)) + HalfWord(Clamp(e.modCount))
    + Padded(e.user) + [BLANK, BLANK]
  }

  /** The statistics that thirty bytes hold, or thirty-four when the extended bit is on. */
  function Decoded(u: seq<byte>, tz: int): Stats
    requires |u| >= 30 && (u[2] / EXT % 2 == 1 ==> |u| >= 34)
  {
    var cr := UnpackDate(u[4..8], 0, 0, 0) - tz;
    var chg := UnpackDate(u[8..12], OfBcd(u[12]), OfBcd(u[13]), OfBcd(u[3])) - tz;
    if u[2] / EXT % 2 == 1
    then Stats(u[0], u[1], u[2], cr, chg, OfWord(u[14..18]), OfWord(u[18..22]), OfWord(u[22..26]), Trimmed(u[26..34]))
    else Stats(u[0], u[1], u[2], cr, chg, OfHalfWord(u[14..16]), OfHalfWord(u[16..18]), OfHalfWord(u[18..20]), Trimmed(u[20..28]))
  }

  /** What survives being written to the directory. */
  function Kept(e: Stats, tz: int): Stats {
    e.(flags := Plain(e.flags), crdate := e.crdate - Local(e.crdate, tz) % DAY,
       size := Clamp(e.size), initSize := Clamp(e.initSize), modCount := Clamp(e.modCount), user := Trimmed(e.user))
  }

  /** Where the encoded fields stand. */
  lemma Layout(e: Stats, tz: int)
    requires Encodable(e, tz)
    ensures var u, chg := Encoded(e, tz), Local(e.chgdate, tz);
      var (hour, min, sec) := TimeOfDay(chg);
      && u[0] == e.ver && u[1] == e.mod && u[2] == Plain(e.flags) && u[3] == ToBcd(sec)
      && u[4..8] == PackDate(Local(e.crdate, tz)) && u[8..12] == PackDate(chg)
      && u[12] == ToBcd(hour) && u[13] == ToBcd(min)
      && u[14..16] == HalfWord(Clamp(e.size)) && u[16..18] == HalfWord(Clamp(e.initSize))
      && u[18..20] == HalfWord(Clamp(e.modCount)) && u[20..28] == Padded(e.user)
  {
  }

  lemma DatesBack(e: Stats, tz: int)
    requires Encodable(e, tz)
    ensures var u, cr := Encoded(e, tz), Local(e.crdate, tz);
      && UnpackDate(u[4..8], 0, 0, 0) == cr - cr % DAY
      && UnpackDate(u[8..12], OfBcd(u[12]), OfBcd(u[13]), OfBcd(u[3])) == Local(e.chgdate, tz)
  {
    var (hour, min, sec) := TimeOfDay(Local(e.chgdate, tz));
    Layout(e, tz);
    DateRoundTrip(Local(e.crdate, tz), 0, 0, 0);
    DateRoundTrip(Local(e.chgdate, tz), hour, min, sec);
    BcdRoundTrip(hour);
    BcdRoundTrip(min);
    BcdRoundTrip(sec);
  }

  lemma HalfWordRoundTrip(v: nat)
    requires v < 0x1_0000
    ensures OfHalfWord(HalfWord(v)) == v
  {
  }

  lemma PlainIsPlain(flags: byte)
    ensures Plain(flags) / EXT % 2 == 0 && Plain(Plain(flags)) == Plain(flags)
  {
  }

  lemma {:induction false} TrimmedTwice(f: seq<byte>)
    ensures Trimmed(Trimmed(f)) == Trimmed(f) && |Trimmed(f)| <= |f|
    ensures Trimmed(f) == [] || Trimmed(f)[|Trimmed(f)| - 1] != BLANK
    ensures f == Trimmed(f) + Blanks(|f| - |Trimmed(f)|)
  {
    if f != [] && f[|f| - 1] == BLANK {
      TrimmedTwice(f[..|f| - 1]);
      assert f == f[..|f| - 1] + [BLANK];
    }
  }

  lemma RestBack(e: Stats, tz: int)
    requires Encodable(e, tz)
    ensures var u := Encoded(e, tz);
      && u[0] == e.ver && u[1] == e.mod && u[2] == Plain(e.flags) && u[2] / EXT % 2 == 0
      && OfHalfWord(u[14..16]) == Clamp(e.size) && OfHalfWord(u[16..18]) == Clamp(e.initSize)
      && OfHalfWord(u[18..20]) == Clamp(e.modCount) && Trimmed(u[20..28]) == Trimmed(e.user)
  {
    Layout(e, tz);
    PlainIsPlain(e.flags);
    HalfWordRoundTrip(Clamp(e.size));
    HalfWordRoundTrip(Clamp(e.initSize));
    HalfWordRoundTrip(Clamp(e.modCount));
    TrimmedPadding(e.user, 8 - |e.user|);
  }

  /** Decoding what was encoded: the changed date to the second, the creation date back to local
      midnight, each count up to 65535, the id without trailing blanks, and the rest as it was. */
  lemma StatsRoundTrip(e: Stats, tz: int)
    requires Encodable(e, tz)
    ensures Encoded(e, tz)[2] / EXT % 2 == 0
    ensures Decoded(Encoded(e, tz), tz) == Kept(e, tz)
  {
    DatesBack(e, tz);
    RestBack(e, tz);
  }

  lemma ClampTwice(v: int)
    ensures Clamp(Clamp(v)) == Clamp(v)
  {
  }

  lemma SameDay(t: int)
    requires InRange(t)
    ensures InRange(t - t % DAY) && (t - t % DAY) % DAY == 0 && PackDate(t - t % DAY) == PackDate(t)
  {
    assert t == t / DAY * DAY + t % DAY;
    assert (t - t % DAY) / DAY == t / DAY;
  }

  lemma PaddedTrimmed(user: Name)
    requires |user| <= 8
    ensures |Trimmed(user)| <= 8 && Padded(Trimmed(user)) == Padded(user)
  {
    TrimmedTwice(user);
    assert Blanks(|user| - |Trimmed(user)|) + Blanks(8 - |user|) == Blanks(8 - |Trimmed(user)|);
  }

  /** What survives survives again: rewriting decoded statistics changes no byte. */
  lemma StatsStable(e: Stats, tz: int)
    requires Encodable(e, tz)
    ensures Encodable(Kept(e, tz), tz) && Encoded(Kept(e, tz), tz) == Encoded(e, tz)
    ensures Kept(Kept(e, tz), tz) == Kept(e, tz)
  {
    var k := Kept(e, tz);
    var cr := Local(e.crdate, tz);
    SameDay(cr);
    assert Local(k.crdate, tz) == cr - cr % DAY;
    PlainIsPlain(e.flags);
    PaddedTrimmed(e.user);
    TrimmedTwice(e.user);
    ClampTwice(e.size);
    ClampTwice(e.initSize);
    ClampTwice(e.modCount);
  }

  /** Store `data` after the first `at` bytes. */
  method Put(a: array<byte>, at: nat, data: seq<byte>)
    requires at + |data| <= a.Length
    modifies a
    ensures a[..at + |data|] == old(a[..at]) + data
    ensures forall i | at + |data| <= i < a.Length :: a[i] == old(a[i])
  {
    forall i | 0 <= i < |data| {
      a[at + i] := data[i];
    }
  }

  /** Fill the thirty bytes of user data. */
  method EncodeStats(e: Stats, tz: int, userdata: array<byte>)
    requires Encodable(e, tz) && userdata.Length >= 30
    modifies userdata
    ensures userdata[..30] == Encoded(e, tz)
    ensures forall i | 30 <= i < userdata.Length :: userdata[i] == old(userdata[i])
  {
    PutFront(e, tz, userdata);
    Put(userdata, 14, HalfWord(Clamp(e.size)));
    Put(userdata, 16, HalfWord(Clamp(e.initSize)));
    Put(userdata, 18, HalfWord(Clamp(e.modCount)));
    PutUser(userdata, e.user);
    Put(userdata, 28, [BLANK, BLANK]);
  }

  method PutFront(e: Stats, tz: int, userdata: array<byte>)
    requires Encodable(e, tz) && userdata.Length >= 30
    modifies userdata
    ensures userdata[..14] == Front(e, tz)
    ensures forall i | 14 <= i < userdata.Length :: userdata[i] == old(userdata[i])
  {
    var t := Local(e.chgdate, tz);
    var (hour, min, sec) := TimeOfDay(t);
    Put(userdata, 0, [e.ver, e.mod, Plain(e.flags), ToBcd(sec)]);
    Put(userdata, 4, PackDate(Local(e.crdate, tz)));
    Put(userdata, 8, PackDate(t));
    Put(userdata, 12, [ToBcd(hour), ToBcd(min)]);
  }

  method PutUser(userdata: array<byte>, user: Name)
    requires userdata.Length >= 30 && |user| <= 8
    modifies userdata
    ensures userdata[..28] == old(userdata[..20]) + Padded(user)
    ensures forall i | 28 <= i < userdata.Length :: userdata[i] == old(userdata[i])
  {
    for i := 0 to 8
      invariant userdata[..20 + i] == old(userdata[..20]) + Padded(user)[..i]
      invariant forall k | 28 <= k < userdata.Length :: userdata[k] == old(userdata[k])
    {
      userdata[20 + i] := if i < |user| then user[i] else BLANK;
      assert userdata[..20 + i + 1] == userdata[..20 + i] + [userdata[20 + i]];
    }
  }

  /** Take user data apart. */
  method DecodeStats(u: seq<byte>, tz: int) returns (e: Stats)
    requires |u| >= 30 && (u[2] / EXT % 2 == 1 ==> |u| >= 34)
    ensures e == Decoded(u, tz)
  {
    var cr := ConvertDate(u[4..8], 0, 0, 0, tz);
    var chg := ConvertDate(u[8..12], OfBcd(u[12]), OfBcd(u[13]), OfBcd(u[3]), tz);
    if u[2] / EXT % 2 == 1 {
      var user := BytesToString(u[26..34]);
      e := Stats(u[0], u[1], u[2], cr, chg, OfWord(u[14..18]), OfWord(u[18..22]), OfWord(u[22..26]), user);
    } else {
      var user := BytesToString(u[20..28]);
      e := Stats(u[0], u[1], u[2], cr, chg, OfHalfWord(u[14..16]), OfHalfWord(u[16..18]), OfHalfWord(u[18..20]), user);
    }
  }

  method ConvertDate(b: seq<byte>, hour: int, min: int, sec: int, tz: int) returns (utc: int)
    requires |b| == 4
    ensures utc == UnpackDate(b, hour, min, sec) - tz
  {
    var mon, mday := JulianToMonthDay(UnpackYear(b), UnpackDay(b));
    utc := ToSeconds(UnpackYear(b), mon, mday, hour, min, sec) - tz;
  }

  // ---- flushes ----

  const NFSD: Name := [0xD5, 0xC6, 0xE2, 0xC4]

  /** The statistics a flush writes: fresh ones for a new member; for one that has them, a new
      changed date and size and the next modification level. */
  function BuildWriteStats(existing: Option<Stats>, lines: int, now: int): Stats {
    match existing
    case None => Stats(1, 1, 0, now, now, lines, lines, 0, NFSD)
    case Some(e) => e.(chgdate := now, size := lines, mod := if e.mod < 99 then e.mod + 1 else 99)
  }

  datatype Flush = Flush(lines: nat, now: int)

  /** One flush of a member whose directory entry decodes to `d`: what the entry then decodes to. */
  function FlushOnce(d: Stats, f: Flush, tz: int): (r: Stats)
    requires Encodable(d, tz) && InRange(Local(f.now, tz))
    ensures r == Kept(BuildWriteStats(Some(d), f.lines, f.now), tz) && Encodable(r, tz)
  {
    var e := BuildWriteStats(Some(d), f.lines, f.now);
    StatsRoundTrip(e, tz);
    StatsStable(e, tz);
    Decoded(Encoded(e, tz), tz)
  }

  function FlushAll(d: Stats, flushes: seq<Flush>, tz: int): (r: Stats)
    requires Encodable(d, tz) && forall i | 0 <= i < |flushes| :: InRange(Local(flushes[i].now, tz))
    ensures Encodable(r, tz)
    decreases |flushes|
  {
    if flushes == [] then d
    else FlushOnce(FlushAll(d, flushes[..|flushes| - 1], tz), flushes[|flushes| - 1], tz)
  }

  /** After any number of flushes the version, the creation day, the initial size and the id are
      what the entry first held, as far as plain statistics can hold them; the changed date and size are the last flush's; and the
      modification level has gone up by one each time, to at most 99. */
  lemma {:induction false} FlushesKeep(d: Stats, flushes: seq<Flush>, tz: int)
    requires Encodable(d, tz)
    requires forall i | 0 <= i < |flushes| :: InRange(Local(flushes[i].now, tz))
    ensures flushes != [] ==>
              var last := flushes[|flushes| - 1];
              FlushAll(d, flushes, tz)
              == Kept(d, tz).(chgdate := last.now, size := Min(last.lines, 0xFFFF), mod := Min(99, d.mod + |flushes|))
    decreases |flushes|
  {
    if flushes != [] {
      FlushesKeep(d, flushes[..|flushes| - 1], tz);
      StatsStable(d, tz);
    }
  }
}
