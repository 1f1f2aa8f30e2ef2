/**
 Packing records, in order, into blocks of a fixed capacity: the greedy layout, and why no
 in-order layout uses fewer blocks.
 */
module Packing {
  import opened Bytes

  function Sum(ws: seq<nat>): nat {
    if ws == [] then 0 else ws[0] + Sum(ws[1..])
  }

  /** Every record has a size, and fits an empty block. */
  predicate Packable(cap: nat, ws: seq<nat>) {
    forall i | 0 <= i < |ws| :: 0 < ws[i] <= cap
  }

  /** How many of the leading records fit in the `room` left in a block. */
  function Fitting(room: nat, ws: seq<nat>): (k: nat)
    ensures k <= |ws|
  {
    if ws == [] || ws[0] > room then 0 else 1 + Fitting(room - ws[0], ws[1..])
  }

  /** The greedy layout: fill a block with as many records as fit, and start another. */
  function Pack(cap: nat, ws: seq<nat>): seq<seq<nat>>
    requires Packable(cap, ws)
    decreases |ws|
  {
    if ws == [] then [] else
    var k := Fitting(cap, ws);
    [ws[..k]] + Pack(cap, ws[k..])
  }

  /** A layout: the records in order, cut into blocks none of which is over capacity. */
  ghost predicate Layout(cap: nat, ws: seq<nat>, blocks: seq<seq<nat>>) {
    Concat(blocks) == ws && forall b | 0 <= b < |blocks| :: Sum(blocks[b]) <= cap
  }

  lemma {:induction false} FittingFits(room: nat, ws: seq<nat>)
    ensures var k := Fitting(room, ws);
      && Sum(ws[..k]) <= room
      && (k < |ws| ==> Sum(ws[..k]) + ws[k] > room)
  {
    if ws != [] && ws[0] <= room {
      FittingFits(room - ws[0], ws[1..]);
      var k := Fitting(room - ws[0], ws[1..]);
      assert ws[..k + 1][1..] == ws[1..][..k];
    }
  }

  /** A prefix that fits is no longer than the greedy one. */
  lemma {:induction false} FittingLongest(room: nat, ws: seq<nat>, k: nat)
    requires k <= |ws| && Sum(ws[..k]) <= room
    ensures k <= Fitting(room, ws)
  {
    if k > 0 {
      assert ws[..k][1..] == ws[1..][..k - 1];
      FittingLongest(room - ws[0], ws[1..], k - 1);
    }
  }

  lemma {:induction false} SumAppend(a: seq<nat>, b: seq<nat>)
    ensures Sum(a + b) == Sum(a) + Sum(b)
  {
    if a == [] {
      assert a + b == b;
    } else {
      assert (a + b)[1..] == a[1..] + b;
      SumAppend(a[1..], b);
    }
  }

  /** The greedy layout is a layout. */
  lemma {:induction false} PackIsLayout(cap: nat, ws: seq<nat>)
    requires Packable(cap, ws)
    ensures Layout(cap, ws, Pack(cap, ws))
    decreases |ws|
  {
    if ws != [] {
      var k := Fitting(cap, ws);
      FittingFits(cap, ws);
      PackIsLayout(cap, ws[k..]);
      var rest := Pack(cap, ws[k..]);
      assert ([ws[..k]] + rest)[1..] == rest;
      assert ws[..k] + ws[k..] == ws;
    }
  }

  /** Dropping leading records never costs a block: the on-line packing of the rest starts from an
      empty block, and never gets ahead of the one that has packed the others first. */
  lemma {:induction false} PackSuffix(cap: nat, ws: seq<nat>, d: nat)
    requires Packable(cap, ws) && d <= |ws|
    ensures |Pack(cap, ws[d..])| <= |Pack(cap, ws)|
  {
    var empty, rest := Open(0, 0), ws[d..];
    OnlineIsPack(cap, 0, ws);
    OnlineIsPack(cap, 0, rest);
    assert ws == ws[..d] + rest;
    PlaceAllAppend(cap, empty, ws[..d], rest);
    PlaceMonotone(cap, empty, PlaceAll(cap, empty, ws[..d]), rest, rest);
  }

  /** No in-order layout uses fewer blocks than the greedy one. */
  lemma {:induction false} PackMinimal(cap: nat, ws: seq<nat>, blocks: seq<seq<nat>>)
    requires Packable(cap, ws) && Layout(cap, ws, blocks)
    ensures |Pack(cap, ws)| <= |blocks|
    decreases |blocks|
  {
    if ws != [] {
      var head, rest := blocks[0], blocks[1..];
      var d := |head|;
      assert ws[..d] == head && ws[d..] == Concat(rest);
      PackMinimal(cap, ws[d..], rest);
      FittingLongest(cap, ws, d);
      var k := Fitting(cap, ws);
      PackSuffix(cap, ws[d..], k - d);
      assert ws[d..][k - d..] == ws[k..];
    }
  }

  /** Packing on line: blocks closed so far, and bytes used in the open one. */
  datatype Open = Open(full: nat, used: nat) {
    function Count(): nat {
      full + if used > 0 then 1 else 0
    }

    predicate AtMost(o: Open) {
      full < o.full || (full == o.full && used <= o.used)
    }
  }

  function Place(cap: nat, o: Open, w: nat): Open {
    if o.used + w > cap then Open(o.full + 1, w) else Open(o.full, o.used + w)
  }

  function PlaceAll(cap: nat, o: Open, ws: seq<nat>): Open
    decreases |ws|
  {
    if ws == [] then o else PlaceAll(cap, Place(cap, o, ws[0]), ws[1..])
  }

  lemma {:induction false} PlaceAllAppend(cap: nat, o: Open, a: seq<nat>, b: seq<nat>)
    ensures PlaceAll(cap, o, a + b) == PlaceAll(cap, PlaceAll(cap, o, a), b)
    decreases |a|
  {
    if a == [] {
      assert a + b == b;
    } else {
      assert (a + b)[1..] == a[1..] + b;
      PlaceAllAppend(cap, Place(cap, o, a[0]), a[1..], b);
    }
  }

  /** Records that fit the open block just accumulate there. */
  lemma {:induction false} PlaceFitting(cap: nat, o: Open, ws: seq<nat>)
    requires o.used + Sum(ws) <= cap
    ensures PlaceAll(cap, o, ws) == Open(o.full, o.used + Sum(ws))
    decreases |ws|
  {
    if ws != [] {
      PlaceFitting(cap, Place(cap, o, ws[0]), ws[1..]);
    }
  }

  /** Placing records one at a time counts the blocks of the greedy layout. */
  lemma {:induction false} OnlineIsPack(cap: nat, full: nat, ws: seq<nat>)
    requires Packable(cap, ws)
    ensures PlaceAll(cap, Open(full, 0), ws).Count() == full + |Pack(cap, ws)|
    decreases |ws|
  {
    if ws != [] {
      var k := Fitting(cap, ws);
      FittingFits(cap, ws);
      PlaceFitting(cap, Open(full, 0), ws[..k]);
      PlaceAllAppend(cap, Open(full, 0), ws[..k], ws[k..]);
      assert ws[..k] + ws[k..] == ws;
      OnlineIsPack(cap, full + 1, ws[k..]);
      assert Sum(ws[..k]) >= ws[0];
    }
  }

  /** Record lists that grow at the end, or in a record's size, never need fewer blocks. */
  ghost predicate Dominated(a: seq<nat>, b: seq<nat>) {
    |a| <= |b| && forall i | 0 <= i < |a| :: a[i] <= b[i]
  }

  lemma {:induction false} PlaceMonotone(cap: nat, o: Open, p: Open, a: seq<nat>, b: seq<nat>)
    requires o.AtMost(p) && Dominated(a, b)
    ensures PlaceAll(cap, o, a).AtMost(PlaceAll(cap, p, b))
    decreases |b|
  {
    if b != [] {
      if a == [] {
        PlaceMonotone(cap, o, Place(cap, p, b[0]), [], b[1..]);
      } else {
        PlaceMonotone(cap, Place(cap, o, a[0]), Place(cap, p, b[0]), a[1..], b[1..]);
      }
    }
  }

  lemma PackMonotone(cap: nat, a: seq<nat>, b: seq<nat>)
    requires Packable(cap, a) && Packable(cap, b) && Dominated(a, b)
    ensures |Pack(cap, a)| <= |Pack(cap, b)|
  {
    OnlineIsPack(cap, 0, a);
    OnlineIsPack(cap, 0, b);
    PlaceMonotone(cap, Open(0, 0), Open(0, 0), a, b);
  }
}
