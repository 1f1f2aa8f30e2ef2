/**
 Fitting predicted blocks into a dataset (src/mvsblkc.c, fitting): the track and record
 arithmetic that chains every pending member onto the end of the previous one.
 */
module TrackSpace {
  import opened Bytes
  import opened BlockCalc
  import opened Packing

  /** The geometry of a dataset and its current end, from the VTOC. */
  datatype Dscb = Dscb(
    bpt: nat,          // blocks per track, 0 when the geometry is unusable
    trklen: nat,       // bytes per track
    tracks: nat,       // tracks allocated over all extents
    secTracks: nat,    // secondary quantity in tracks
    extents: nat,      // extents in use
    lstarTT: nat,      // last used track ...
    lstarR: nat,       // ... and record on it
    trbal: nat)        // bytes left on that track

  const MAX_EXTENTS: nat := 16

  /** A TTR packed as one 32-bit word: the track above one byte of record. */
  function Ttr(tt: nat, r: nat): (w: nat)
    ensures tt < 0x100_0000 && r < 256 ==> TT(w) == tt && R(w) == r
  {
    (tt * 256) % U32 + r % 256
  }

  function TT(w: nat): nat { w / 256 }

  function R(w: nat): nat { w % 256 }

  /** Blocks still fitting on track `tt` with `r` records on it. On the dataset's real last
      track only the bytes left count; on a predicted track every block is full sized. */
  function TrackRoom(ds: Dscb, tt: nat, r: nat): (room: nat)
    ensures room > 0 ==> r + room <= 255
  {
    if ds.bpt == 0 then 0 else
    var room :=
      if tt == ds.lstarTT then
        var slot := ds.trklen / ds.bpt;
        var free := if slot > 0 then Min(ds.trbal / slot, ds.bpt) else 0;
        if r > ds.lstarR then (if r - ds.lstarR < free then free - (r - ds.lstarR) else 0) else free
      else if r < ds.bpt then ds.bpt - r else 0;
    if r + room > 255 then (if r < 255 then 255 - r else 0) else room
  }

  /** Blocks in the tracks the dataset may still extend by. */
  function Secondary(ds: Dscb): nat {
    if ds.secTracks > 0 && ds.extents < MAX_EXTENTS
    then ds.secTracks * (MAX_EXTENTS - ds.extents) * ds.bpt else 0
  }

  /** Blocks from `ttr` to the end of everything the dataset could hold. */
  function Available(ds: Dscb, ttr: nat): nat {
    if ds.bpt == 0 then 0 else
    var after := if ds.tracks > TT(ttr) + 1 then (ds.tracks - TT(ttr) - 1) * ds.bpt else 0;
    (TrackRoom(ds, TT(ttr), R(ttr)) + after + Secondary(ds)) % U32
  }

  /** Where the last of `n` further full-sized blocks lands. */
  function Advance(ds: Dscb, ttr: nat, n: nat): nat {
    if ds.bpt == 0 || n == 0 then ttr else
    var room := TrackRoom(ds, TT(ttr), R(ttr));
    if n <= room then Ttr(TT(ttr), R(ttr) + n)
    else
      var trks := (n - room + ds.bpt - 1) / ds.bpt;
      CeilDiv(n - room, ds.bpt);
      Ttr(TT(ttr) + trks, n - room - (trks - 1) * ds.bpt)
  }

  /** A real geometry whose figures stay inside the packed word. */
  predicate Sane(ds: Dscb) {
    && 0 < ds.bpt <= 255
    && ds.lstarR <= 255
    && ds.lstarTT + ds.tracks + 16 * ds.secTracks + 2 <= 0x80_0000
  }

  /** A position reached by chaining forward from the dataset's end. */
  predicate Ahead(ds: Dscb, ttr: nat) {
    && ds.lstarTT <= TT(ttr)
    && (TT(ttr) == ds.lstarTT ==> R(ttr) >= ds.lstarR)
    && (TT(ttr) != ds.lstarTT ==> R(ttr) <= ds.bpt)
  }

  /** Tracks past the allocation that a predicted position has entered. */
  function Beyond(ds: Dscb, ttr: nat): nat {
    Max(0, TT(ttr) + 1 - ds.tracks)
  }

  /** Whole tracks after the current one, allocated or still to be extended by. */
  function TracksAfter(ds: Dscb, ttr: nat): nat {
    Max(0, ds.tracks - TT(ttr) - 1) +
    if ds.secTracks > 0 && ds.extents < MAX_EXTENTS then ds.secTracks * (MAX_EXTENTS - ds.extents) else 0
  }

  lemma MulLe(a: nat, b: nat, c: nat, d: nat)
    requires a <= b && c <= d
    ensures a * c <= b * d
  {
    MulMono(a, b, c);
    MulMono(c, d, b);
    assert b * c == c * b && b * d == d * b;
  }

  lemma TracksAfterBound(ds: Dscb, ttr: nat)
    ensures TracksAfter(ds, ttr) <= ds.tracks + 16 * ds.secTracks
  {
    if ds.extents < MAX_EXTENTS {
      MulLe(ds.secTracks, ds.secTracks, MAX_EXTENTS - ds.extents, 16);
    }
  }

  /** The count as whole tracks, without the 32-bit reduction. */
  lemma AvailableInTracks(ds: Dscb, ttr: nat)
    requires Sane(ds)
    ensures Available(ds, ttr) == TrackRoom(ds, TT(ttr), R(ttr)) + TracksAfter(ds, ttr) * ds.bpt
  {
    TracksAfterBound(ds, ttr);
    MulLe(TracksAfter(ds, ttr), 0x80_0000, ds.bpt, 255);
    var after := Max(0, ds.tracks - TT(ttr) - 1);
    var more := TracksAfter(ds, ttr) - after;
    Distributes(after, more, ds.bpt);
    assert Secondary(ds) == more * ds.bpt;
    SmallMod(TrackRoom(ds, TT(ttr), R(ttr)) + TracksAfter(ds, ttr) * ds.bpt);
  }

  lemma SmallMod(n: nat)
    requires n < U32
    ensures n % U32 == n
  {
  }

  /** Staying on the current track. */
  lemma AdvanceOnTrack(ds: Dscb, ttr: nat, n: nat)
    requires Sane(ds) && Ahead(ds, ttr) && TT(ttr) <= 0x80_0000
    requires n <= TrackRoom(ds, TT(ttr), R(ttr))
    ensures var w := Advance(ds, ttr, n);
      Ahead(ds, w) && TT(w) == TT(ttr) && TrackRoom(ds, TT(w), R(w)) == TrackRoom(ds, TT(ttr), R(ttr)) - n
  {
    if n > 0 {
      var w := Advance(ds, ttr, n);
      assert TT(w) == TT(ttr) && R(w) == R(ttr) + n;
    }
  }

  /** Moving on to later tracks: how many, and the room on the one reached. */
  lemma AdvancePastTrack(ds: Dscb, ttr: nat, n: nat) returns (trks: nat)
    requires Sane(ds) && Ahead(ds, ttr) && TT(ttr) <= 0x80_0000
    requires TrackRoom(ds, TT(ttr), R(ttr)) < n <= Available(ds, ttr)
    ensures var w := Advance(ds, ttr, n);
      && Ahead(ds, w) && TT(w) == TT(ttr) + trks && 0 < trks <= TracksAfter(ds, ttr)
      && TrackRoom(ds, TT(w), R(w)) == TrackRoom(ds, TT(ttr), R(ttr)) + trks * ds.bpt - n
  {
    var m := n - TrackRoom(ds, TT(ttr), R(ttr));
    AvailableInTracks(ds, ttr);
    TracksAfterBound(ds, ttr);
    CeilDiv(m, ds.bpt);
    trks := (m + ds.bpt - 1) / ds.bpt;
    MulMono(TracksAfter(ds, ttr), trks - 1, ds.bpt);
    var r := m - (trks - 1) * ds.bpt;
    assert (trks - 1) * ds.bpt == trks * ds.bpt - ds.bpt;
    var w := Advance(ds, ttr, n);
    assert w == Ttr(TT(ttr) + trks, r);
    assert TT(w) == TT(ttr) + trks && R(w) == r;
  }

  lemma AdvancePastBalance(ds: Dscb, ttr: nat, n: nat)
    requires Sane(ds) && Ahead(ds, ttr) && TT(ttr) <= 0x80_0000
    requires TrackRoom(ds, TT(ttr), R(ttr)) < n <= Available(ds, ttr)
    ensures var w := Advance(ds, ttr, n);
      && Ahead(ds, w) && TT(w) > TT(ttr) && Balanced(ds, ttr, w, n)
      && (Secondary(ds) == 0 ==> TT(w) < ds.tracks)
  {
    var w := Advance(ds, ttr, n);
    var trks := AdvancePastTrack(ds, ttr, n);
    AvailableInTracks(ds, ttr);
    AvailableInTracks(ds, w);
    TracksBalance(ds, ttr, w, trks);
    Distribute(TracksAfter(ds, ttr), trks, Beyond(ds, w) - Beyond(ds, ttr), ds.bpt);
    if Secondary(ds) == 0 {
      NoSecondary(ds, ttr);
    }
  }

  lemma TracksBalance(ds: Dscb, ttr: nat, w: nat, trks: nat)
    requires TT(w) == TT(ttr) + trks
    ensures TracksAfter(ds, w) == TracksAfter(ds, ttr) - trks + (Beyond(ds, w) - Beyond(ds, ttr))
  {
  }

  lemma Distribute(a: int, b: int, c: int, d: int)
    ensures (a - b + c) * d == a * d - b * d + c * d
  {
  }

  /** The space left after `n` blocks: `n` less, but for every track entered past the allocation,
      which is credited back in full. */
  ghost predicate Balanced(ds: Dscb, ttr: nat, w: nat, n: int) {
    Available(ds, w) == Available(ds, ttr) - n + (Beyond(ds, w) - Beyond(ds, ttr)) * ds.bpt
  }

  /** Nothing is entered past the allocation. */
  predicate Stays(ds: Dscb, ttr: nat, w: nat) {
    TT(w) == TT(ttr) || TT(w) < ds.tracks
  }

  lemma AdvanceOnBalance(ds: Dscb, ttr: nat, n: nat)
    requires Sane(ds) && Ahead(ds, ttr) && TT(ttr) <= 0x80_0000 && n <= TrackRoom(ds, TT(ttr), R(ttr))
    ensures var w := Advance(ds, ttr, n);
      Ahead(ds, w) && TT(w) == TT(ttr) && Balanced(ds, ttr, w, n)
  {
    AvailableInTracks(ds, ttr);
    AdvanceOnTrack(ds, ttr, n);
    AvailableInTracks(ds, Advance(ds, ttr, n));
  }

  lemma StaysExactly(ds: Dscb, ttr: nat, w: nat, n: int)
    requires ds.bpt > 0 && TT(ttr) <= TT(w) && Balanced(ds, ttr, w, n)
    ensures Available(ds, w) == Available(ds, ttr) - n <==> Stays(ds, ttr, w)
  {
    OverCredit(Beyond(ds, w) - Beyond(ds, ttr), ds.bpt);
  }

  /** Advancing by `n` blocks lowers the space left by exactly `n`, except that every track
      entered past the allocation is credited back in full. */
  lemma AdvanceConserves(ds: Dscb, ttr: nat, n: nat)
    requires Sane(ds) && Ahead(ds, ttr) && TT(ttr) <= 0x80_0000 && n <= Available(ds, ttr)
    ensures var w := Advance(ds, ttr, n);
      && Ahead(ds, w) && Balanced(ds, ttr, w, n)
      && (Available(ds, w) == Available(ds, ttr) - n <==> Stays(ds, ttr, w))
      && (Secondary(ds) == 0 ==> Stays(ds, ttr, w))
  {
    var w := Advance(ds, ttr, n);
    if n <= TrackRoom(ds, TT(ttr), R(ttr)) {
      AdvanceOnBalance(ds, ttr, n);
    } else {
      AdvancePastBalance(ds, ttr, n);
    }
    StaysExactly(ds, ttr, w, n);
  }

  lemma OverCredit(d: nat, bpt: nat)
    requires bpt > 0
    ensures d * bpt == 0 <==> d == 0
  {
    MulMono(1, d, bpt);
  }

  lemma NoSecondary(ds: Dscb, ttr: nat)
    requires ds.bpt > 0 && Secondary(ds) == 0
    ensures TracksAfter(ds, ttr) == Max(0, ds.tracks - TT(ttr) - 1)
  {
    if ds.secTracks > 0 && ds.extents < MAX_EXTENTS {
      MulLe(1, ds.secTracks, 1, MAX_EXTENTS - ds.extents);
      MulLe(1, ds.secTracks * (MAX_EXTENTS - ds.extents), 1, ds.bpt);
    }
  }

  // ----- Chaining every pending member ----------------------------------------------------

  /** The admit loop: each member is fitted where the previous one was predicted to end. */
  predicate Chain(ds: Dscb, ttr: nat, needs: seq<nat>)
    decreases |needs|
  {
    needs == [] ||
    (needs[0] <= Available(ds, ttr) && Chain(ds, Advance(ds, ttr, needs[0]), needs[1..]))
  }

  /** Where the last member of a chain is predicted to end. */
  function ChainEnd(ds: Dscb, ttr: nat, needs: seq<nat>): nat
    decreases |needs|
  {
    if needs == [] then ttr else ChainEnd(ds, Advance(ds, ttr, needs[0]), needs[1..])
  }

  lemma {:induction false} ChainOneMore(ds: Dscb, ttr: nat, needs: seq<nat>, n: nat)
    ensures Chain(ds, ttr, needs + [n]) <==> Chain(ds, ttr, needs) && n <= Available(ds, ChainEnd(ds, ttr, needs))
    ensures ChainEnd(ds, ttr, needs + [n]) == Advance(ds, ChainEnd(ds, ttr, needs), n)
    decreases |needs|
  {
    if needs == [] {
      assert needs + [n] == [n] && [n][1..] == [];
    } else {
      assert (needs + [n])[1..] == needs[1..] + [n];
      ChainOneMore(ds, Advance(ds, ttr, needs[0]), needs[1..], n);
    }
  }

  /** Every predicted end of a chain lies in tracks that the packed word can hold. */
  predicate Holdable(ds: Dscb, ttr: nat, needs: seq<nat>)
    decreases |needs|
  {
    TT(ttr) <= 0x80_0000 && (needs == [] || Holdable(ds, Advance(ds, ttr, needs[0]), needs[1..]))
  }

  /** A chain that passes leaves exactly what its needs leave, and the credit of every track that
      it has entered past the allocation. */
  lemma {:induction false} ChainBalance(ds: Dscb, ttr: nat, needs: seq<nat>)
    requires Sane(ds) && Ahead(ds, ttr) && Holdable(ds, ttr, needs) && Chain(ds, ttr, needs)
    ensures Balanced(ds, ttr, ChainEnd(ds, ttr, needs), Sum(needs))
    decreases |needs|
  {
    if needs != [] {
      var w := Advance(ds, ttr, needs[0]);
      AdvanceConserves(ds, ttr, needs[0]);
      ChainBalance(ds, w, needs[1..]);
      AddBalances(ds, ttr, w, ChainEnd(ds, w, needs[1..]), needs[0], Sum(needs[1..]));
    }
  }

  lemma AddBalances(ds: Dscb, a: nat, b: nat, c: nat, m: int, n: int)
    requires Balanced(ds, a, b, m) && Balanced(ds, b, c, n)
    ensures Balanced(ds, a, c, m + n)
  {
    Distributes(Beyond(ds, b) - Beyond(ds, a), Beyond(ds, c) - Beyond(ds, b), ds.bpt);
  }

  /** No predicted end of a chain, as far as it passes, lies past the allocation. */
  predicate StaysInside(ds: Dscb, ttr: nat, needs: seq<nat>)
    decreases |needs|
  {
    needs == [] || needs[0] > Available(ds, ttr) ||
    (var w := Advance(ds, ttr, needs[0]); Stays(ds, ttr, w) && StaysInside(ds, w, needs[1..]))
  }

  /** With predicted ends inside the allocation the chain passes exactly when the needs fit
      together, secondary space or not. */
  lemma {:induction false} ChainInsideIsSum(ds: Dscb, ttr: nat, needs: seq<nat>)
    requires Sane(ds) && Ahead(ds, ttr) && TT(ttr) <= 0x80_0000 && StaysInside(ds, ttr, needs)
    ensures Chain(ds, ttr, needs) <==> Sum(needs) <= Available(ds, ttr)
    decreases |needs|
  {
    if needs != [] && needs[0] <= Available(ds, ttr) {
      AdvanceConserves(ds, ttr, needs[0]);
      ChainInsideIsSum(ds, Advance(ds, ttr, needs[0]), needs[1..]);
    }
  }

  /** Without usable secondary space every chain stays inside. */
  lemma {:induction false} NoSecondaryStays(ds: Dscb, ttr: nat, needs: seq<nat>)
    requires Sane(ds) && Ahead(ds, ttr) && TT(ttr) <= 0x80_0000 && Secondary(ds) == 0
    ensures StaysInside(ds, ttr, needs)
    decreases |needs|
  {
    if needs != [] && needs[0] <= Available(ds, ttr) {
      AdvanceConserves(ds, ttr, needs[0]);
      NoSecondaryStays(ds, Advance(ds, ttr, needs[0]), needs[1..]);
    }
  }

  /** So without usable secondary space the chain passes exactly when the needs fit together. */
  lemma ChainIsSum(ds: Dscb, ttr: nat, needs: seq<nat>)
    requires Sane(ds) && Ahead(ds, ttr) && TT(ttr) <= 0x80_0000 && Secondary(ds) == 0
    ensures Chain(ds, ttr, needs) <==> Sum(needs) <= Available(ds, ttr)
  {
    NoSecondaryStays(ds, ttr, needs);
    ChainInsideIsSum(ds, ttr, needs);
  }

  lemma {:induction false} SumOfRest(needs: seq<nat>, k: nat)
    requires k < |needs|
    ensures Sum(needs) == needs[k] + Sum(needs[..k] + needs[k + 1..])
  {
    if k == 0 {
      assert needs[..0] + needs[1..] == needs[1..];
    } else {
      var rest := needs[..k] + needs[k + 1..];
      assert rest[1..] == needs[1..][..k - 1] + needs[1..][k..];
      SumOfRest(needs[1..], k - 1);
    }
  }

  lemma WithoutOne(b: seq<nat>, k: nat)
    requires k < |b|
    ensures multiset(b[..k] + b[k + 1..]) == multiset(b) - multiset{b[k]}
  {
    assert b == b[..k] + [b[k]] + b[k + 1..];
  }

  lemma RemoveSame(a: seq<nat>, b: seq<nat>, k: nat)
    requires multiset(a) == multiset(b) && a != [] && k < |b| && b[k] == a[0]
    ensures multiset(a[1..]) == multiset(b[..k] + b[k + 1..])
  {
    WithoutOne(a, 0);
    WithoutOne(b, k);
    assert a[..0] + a[1..] == a[1..];
  }

  lemma {:induction false} SumAnyOrder(a: seq<nat>, b: seq<nat>)
    requires multiset(a) == multiset(b)
    ensures Sum(a) == Sum(b)
    decreases |a|
  {
    if a == [] {
      assert |multiset(b)| == 0;
    } else {
      assert a[0] in multiset(b);
      var k :| 0 <= k < |b| && b[k] == a[0];
      RemoveSame(a, b, k);
      SumAnyOrder(a[1..], b[..k] + b[k + 1..]);
      SumOfRest(b, k);
    }
  }

  /** ... so the order of the slots does not matter. */
  lemma ChainAnyOrder(ds: Dscb, ttr: nat, a: seq<nat>, b: seq<nat>)
    requires Sane(ds) && Ahead(ds, ttr) && TT(ttr) <= 0x80_0000 && Secondary(ds) == 0
    requires multiset(a) == multiset(b)
    ensures Chain(ds, ttr, a) == Chain(ds, ttr, b)
  {
    ChainIsSum(ds, ttr, a);
    ChainIsSum(ds, ttr, b);
    SumAnyOrder(a, b);
  }

  /** A dataset that is full but for one secondary extent of one ten-block track. */
  const TIGHT: Dscb := Dscb(10, 47968, 1, 1, 15, 0, 5, 0)

  lemma TightAvailable()
    ensures Sane(TIGHT) && Ahead(TIGHT, Ttr(0, 5))
    ensures Available(TIGHT, Ttr(0, 5)) == 10
    ensures Available(TIGHT, Ttr(1, 10)) == 10 && Available(TIGHT, Ttr(1, 1)) == 19
  {
    assert Secondary(TIGHT) == 10;
    assert TrackRoom(TIGHT, 0, 5) == 0 && TrackRoom(TIGHT, 1, 10) == 0 && TrackRoom(TIGHT, 1, 1) == 9;
  }

  lemma TightAdvances()
    ensures Advance(TIGHT, Ttr(0, 5), 10) == Ttr(1, 10)
    ensures Advance(TIGHT, Ttr(0, 5), 1) == Ttr(1, 1)
  {
    assert TrackRoom(TIGHT, 0, 5) == 0;
    assert (10 + TIGHT.bpt - 1) / TIGHT.bpt == 1 && (1 + TIGHT.bpt - 1) / TIGHT.bpt == 1;
  }

  /** It admits ten blocks after ten, and whether one and nineteen fit depends on their order. */
  lemma SecondaryIsCreditedAgain()
    ensures Available(TIGHT, Ttr(0, 5)) == 10
    ensures Chain(TIGHT, Ttr(0, 5), [10, 10])
    ensures Chain(TIGHT, Ttr(0, 5), [1, 19]) && !Chain(TIGHT, Ttr(0, 5), [19, 1])
  {
    TightAvailable();
    TightAdvances();
    assert [10, 10][1..] == [10] && [1, 19][1..] == [19];
    assert Chain(TIGHT, Ttr(1, 10), [10]) && Chain(TIGHT, Ttr(1, 1), [19]);
  }
}
