/**
 How many blocks of a given size fit on one track (src/mvsutl.c): a published table for the
 3390, and arithmetic for the 3380 and 3350.
 */
module TrackCapacity {
  import opened TrackSpace

  datatype Device = D3390 | D3380 | D3350 | Other

  datatype Row = Row(minLen: nat, nrec: nat)

  const ROWS: nat := 63

  /** The published rows, by descending smallest block length. */
  function Cap3390(i: nat): Row {
    match i
    case 0 => Row(27999, 1) case 1 => Row(18453, 2) case 2 => Row(13683, 3) case 3 => Row(10797, 4)
    case 4 => Row(8907, 5) case 5 => Row(7549, 6) case 6 => Row(6519, 7) case 7 => Row(5727, 8)
    case 8 => Row(5065, 9) case 9 => Row(4567, 10) case 10 => Row(4137, 11) case 11 => Row(3769, 12)
    case 12 => Row(3441, 13) case 13 => Row(3175, 14) case 14 => Row(2943, 15) case 15 => Row(2711, 16)
    case 16 => Row(2547, 17) case 17 => Row(2377, 18) case 18 => Row(2213, 19) case 19 => Row(2083, 20)
    case 20 => Row(1947, 21) case 21 => Row(1851, 22) case 22 => Row(1749, 23) case 23 => Row(1647, 24)
    case 24 => Row(1551, 25) case 25 => Row(1483, 26) case 26 => Row(1387, 27) case 27 => Row(1319, 28)
    case 28 => Row(1251, 29) case 29 => Row(1183, 30) case 30 => Row(1155, 31) case 31 => Row(1087, 32)
    case 32 => Row(1019, 33) case 33 => Row(985, 34) case 34 => Row(951, 35) case 35 => Row(889, 36)
    case 36 => Row(855, 37) case 37 => Row(821, 38) case 38 => Row(787, 39) case 39 => Row(753, 40)
    case 40 => Row(719, 41) case 41 => Row(691, 42) case 42 => Row(657, 43) case 43 => Row(623, 44)
    case 44 => Row(589, 45) case 45 => Row(555, 46) case 46 => Row(521, 48) case 47 => Row(487, 49)
    case 48 => Row(459, 50) case 49 => Row(425, 52) case 50 => Row(391, 54) case 51 => Row(357, 55)
    case 52 => Row(323, 57) case 53 => Row(289, 59) case 54 => Row(255, 61) case 55 => Row(227, 64)
    case 56 => Row(193, 66) case 57 => Row(159, 69) case 58 => Row(125, 72) case 59 => Row(91, 75)
    case 60 => Row(57, 78) case 61 => Row(23, 82) case _ => Row(1, 86)
  }

  /** Each row has a shorter smallest block than the one before, and more blocks to the track. */
  lemma NextRow(i: nat)
    requires i < ROWS - 1
    ensures Cap3390(i).minLen > Cap3390(i + 1).minLen && Cap3390(i).nrec < Cap3390(i + 1).nrec
  {
  }

  lemma {:induction false} Descends(i: nat, j: nat)
    requires i <= j < ROWS
    ensures Cap3390(i).minLen >= Cap3390(j).minLen && Cap3390(i).nrec <= Cap3390(j).nrec
    decreases j - i
  {
    if i < j {
      NextRow(i);
      Descends(i + 1, j);
    }
  }

  /** The row that the table gives for a block: the first whose smallest block is not longer. */
  ghost predicate Finds(blksize: nat, i: nat) {
    && i < ROWS && blksize >= Cap3390(i).minLen
    && forall k: nat | k < i :: blksize < Cap3390(k).minLen
  }

  /** The cost of one block: cells of 32 bytes of 1499, or bytes of 19254. */
  function Cost(dev: Device, blksize: nat): nat {
    match dev
    case D3380 => 15 + (blksize + 12 + 31) / 32
    case D3350 => 185 + blksize
    case _ => blksize
  }

  function Track(dev: Device, trklen: nat): nat {
    match dev
    case D3380 => 1499
    case D3350 => 19254
    case _ => trklen
  }

  /** The capacity of a track in blocks of `blksize`. */
  ghost predicate Capacity(dev: Device, trklen: nat, blksize: nat, n: nat) {
    if blksize == 0 then n == 0
    else if dev.D3390? then
      if blksize > 56664 then n == 0 else exists i: nat :: Finds(blksize, i) && n == Cap3390(i).nrec
    else n * Cost(dev, blksize) <= Track(dev, trklen) < (n + 1) * Cost(dev, blksize)
  }

  /** The blocks on a track: on a 3390 what the table's row says, and on any other device the
      largest number whose cost fits. */
  method BlocksPerTrack(dev: Device, trklen: nat, blksize: nat) returns (n: nat)
    ensures Capacity(dev, trklen, blksize, n)
  {
    n := 0;
    if blksize == 0 {
      return;
    }
    match dev {
      case D3390 =>
        if blksize > 56664 {
          return;
        }
        assert Cap3390(ROWS - 1).minLen <= blksize;
        for i := 0 to ROWS
          invariant forall k: nat | k < i :: blksize < Cap3390(k).minLen
        {
          if blksize >= Cap3390(i).minLen {
            assert Finds(blksize, i);
            return Cap3390(i).nrec;
          }
        }
        assert false;
      case D3380 => n := Fit(1499, 15 + (blksize + 12 + 31) / 32);
      case D3350 => n := Fit(19254, 185 + blksize);
      case Other => n := if trklen == 0 then 0 else Fit(trklen, blksize);
    }
  }

  function Fit(total: nat, cost: nat): (n: nat)
    requires cost > 0
    ensures n * cost <= total < (n + 1) * cost
  {
    assert total == total / cost * cost + total % cost;
    assert total / cost >= 0;
    total / cost
  }

  lemma FitAntitone(total: nat, a: nat, b: nat, m: nat, n: nat)
    requires a <= b && m * a <= total < (m + 1) * a && n * b <= total < (n + 1) * b
    ensures n <= m
  {
    if n > m {
      MulLe(m + 1, n, a, b);
    }
  }

  /** A longer block never fits more often, on any device. */
  lemma CapacityAntitone(dev: Device, trklen: nat, a: nat, b: nat, m: nat, n: nat)
    requires 0 < a <= b && Capacity(dev, trklen, a, m) && Capacity(dev, trklen, b, n)
    ensures n <= m
  {
    if dev.D3390? {
      if b <= 56664 {
        var i: nat :| Finds(a, i) && m == Cap3390(i).nrec;
        var j: nat :| Finds(b, j) && n == Cap3390(j).nrec;
        assert j <= i;
        Descends(j, i);
      }
    } else {
      FitAntitone(Track(dev, trklen), Cost(dev, a), Cost(dev, b), m, n);
    }
  }

  /** No known device holds more than 103 blocks, so a record number fits one byte. */
  lemma CapacityFitsByte(dev: Device, trklen: nat, blksize: nat, n: nat)
    requires Capacity(dev, trklen, blksize, n) && !dev.Other?
    ensures n <= 103
  {
    if blksize > 0 {
      match dev {
        case D3390 =>
          if blksize <= 56664 {
            var i: nat :| Finds(blksize, i) && n == Cap3390(i).nrec;
            Descends(i, ROWS - 1);
          }
        case D3380 => FitAntitone(1499, 16, Cost(dev, blksize), 93, n);
        case D3350 => FitAntitone(19254, 186, Cost(dev, blksize), 103, n);
      }
    }
  }
}
