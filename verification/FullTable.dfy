/**
 The memory of datasets found out of space (src/mvspwfl.c): four entries that expire after
 a minute.
 */
module FullTable {

  const EXPIRY_SECONDS: int := 60

  /** `when` is 0 for an unused entry. */
  datatype Mark = Mark(dsname: string, when: int)

  const UNUSED: seq<Mark> := [Mark("", 0), Mark("", 0), Mark("", 0), Mark("", 0)]

  /** Is `dsname` remembered as out of space at time `now`? */
  predicate Remembers(marks: seq<Mark>, dsname: string, now: int) {
    exists m :: m in marks && Live(m, now) && m.dsname == dsname
  }

  predicate Live(m: Mark, now: int) {
    m.when != 0 && now - m.when <= EXPIRY_SECONDS
  }

  /** Nothing is remembered. */
  predicate Forgotten(marks: seq<Mark>) {
    forall i | 0 <= i < |marks| :: marks[i].when == 0
  }

  class Table {
    var marks: seq<Mark>

    constructor ()
      ensures Valid() && Empty() && marks == UNUSED && forall d, t :: !Known(d, t)
    {
      marks := UNUSED;
    }

    predicate Valid()
      reads this
    {
      |marks| == 4 && forall i | 0 <= i < 4 :: marks[i].when >= 0
    }

    predicate Empty()
      reads this
    {
      Forgotten(marks)
    }

    predicate Known(dsname: string, now: int)
      reads this
    {
      Remembers(marks, dsname, now)
    }

    /** Remember `dsname`: refresh its entry, or take an unused or the oldest one. Every other
        dataset stays remembered, except the one whose entry was taken. */
    method MarkFull(dsname: string, now: int)
      requires Valid() && now > 0
      modifies this
      ensures Valid()
      ensures forall t | t - now <= EXPIRY_SECONDS :: Known(dsname, t)
      ensures exists lost :: lost in old(marks) &&
                (forall m | m in old(marks) && m.when != 0 :: lost.when <= m.when || lost.dsname == dsname) &&
                forall d, t | d != dsname && d != lost.dsname && old(Known(d, t)) :: Known(d, t)
    {
      var oldest := 0;
      for i := 0 to 4
        invariant 0 <= oldest < 4 && marks == old(marks)
        invariant forall j | 0 <= j < i :: marks[oldest].when <= marks[j].when
      {
        if marks[i].when != 0 && marks[i].dsname == dsname {
          Put(i, Mark(dsname, now));
          return;
        }
        if marks[i].when < marks[oldest].when {
          oldest := i;
        }
      }
      Put(oldest, Mark(dsname, now));
    }

    method Put(i: nat, m: Mark)
      requires Valid() && i < 4 && m.when > 0
      modifies this
      ensures Valid() && marks == old(marks)[i := m]
      ensures forall t | Live(m, t) :: Known(m.dsname, t)
      ensures forall d, t | d != m.dsname && d != old(marks)[i].dsname && old(Known(d, t)) :: Known(d, t)
    {
      marks := marks[i := m];
      assert marks[i] == m;
      forall d, t | d != m.dsname && d != old(marks)[i].dsname && old(Known(d, t))
        ensures Known(d, t)
      {
        var k :| 0 <= k < 4 && Live(old(marks)[k], t) && old(marks)[k].dsname == d;
        assert marks[k] == old(marks)[k];
      }
    }

    /** Forget `dsname`, and no other. */
    method ClearFull(dsname: string)
      requires Valid()
      modifies this
      ensures Valid()
      ensures forall d, t :: Known(d, t) == (old(Known(d, t)) && d != dsname)
      ensures old(Empty()) ==> Empty()
    {
      var kept := [];
      for i := 0 to 4
        invariant |kept| == i && marks == old(marks)
        invariant forall j | 0 <= j < i :: kept[j] == Forget(marks[j], dsname)
      {
        kept := kept + [Forget(marks[i], dsname)];
      }
      marks := kept;
      forall d, t
        ensures Known(d, t) == (old(Known(d, t)) && d != dsname)
      {
        if old(Known(d, t)) && d != dsname {
          var k :| 0 <= k < 4 && Live(old(marks)[k], t) && old(marks)[k].dsname == d;
          assert marks[k] == old(marks)[k];
        }
        if Known(d, t) {
          var k :| 0 <= k < 4 && Live(marks[k], t) && marks[k].dsname == d;
          assert marks[k] == Forget(old(marks)[k], dsname);
        }
      }
    }

    static function Forget(m: Mark, dsname: string): Mark {
      if m.dsname == dsname then m.(when := 0) else m
    }

    /** Is `dsname` out of space? Expired entries met on the way are dropped, which no later
        question can notice. */
    method IsFull(dsname: string, now: int) returns (full: bool)
      requires Valid()
      modifies this
      ensures Valid() && full == old(Known(dsname, now))
      ensures forall d, t | t >= now :: Known(d, t) == old(Known(d, t))
      ensures old(Empty()) ==> Empty() && !full
    {
      full := false;
      for i := 0 to 4
        invariant Valid()
        invariant forall j | 0 <= j < 4 :: marks[j] == if j < i then Expire(old(marks)[j], now) else old(marks)[j]
        invariant forall j | 0 <= j < i :: !(Live(old(marks)[j], now) && old(marks)[j].dsname == dsname)
      {
        marks := marks[i := Expire(marks[i], now)];
        if Live(marks[i], now) && marks[i].dsname == dsname {
          full := true;
          break;
        }
      }
      assert forall j | 0 <= j < 4 :: marks[j] == old(marks)[j] || marks[j] == Expire(old(marks)[j], now);
      forall d, t | t >= now
        ensures Known(d, t) == old(Known(d, t))
      {
        if old(Known(d, t)) {
          var k :| 0 <= k < 4 && Live(old(marks)[k], t) && old(marks)[k].dsname == d;
          assert marks[k] == old(marks)[k];
        }
        if Known(d, t) {
          var k :| 0 <= k < 4 && Live(marks[k], t) && marks[k].dsname == d;
          assert marks[k] == old(marks)[k];
        }
      }
    }

    static function Expire(m: Mark, now: int): Mark {
      if Live(m, now) then m else m.(when := 0)
    }
  }
}
