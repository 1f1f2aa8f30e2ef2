/**
 Blocks a member will occupy once stowed (src/mvsblkc.c, record counting): a running
 estimate fed with the byte stream in pieces, against the layout of the whole text.
 */
module BlockCalc {
  import opened Bytes
  import opened Packing

  datatype Recfm = F | V | U

  datatype Dcb = Dcb(recfm: Recfm, blksize: nat, lrecl: nat) {
    /** Data bytes one record carries. */
    function RecordMax(): int {
      if recfm.V? then lrecl - 4 else lrecl
    }

    /** Bytes of a block that records can use: a V block gives 4 to its BDW. */
    function Capacity(): int {
      if recfm.V? then blksize - 4 else blksize
    }

    /** Bytes a record of `n` data bytes takes: padded on F, with a 4-byte RDW on V. */
    function RecordSize(n: nat): nat {
      if recfm.V? then 4 + n else lrecl
    }

    /** A usable format: a record carries data, and a longest one fits an empty block. */
    predicate Usable() {
      0 < RecordMax() && lrecl <= Capacity()
    }
  }

  datatype Estimate = Estimate(dcb: Dcb, full: nat, partial: nat, run: nat)

  function Init(dcb: Dcb): Estimate {
    Estimate(dcb, 0, 0, 0)
  }

  // ----- The text, its records and its layout --------------------------------------------

  /** Lengths of the text lines of `data`, when a line of `run` bytes was already begun. A
      last line without its LF is a line; an empty remainder is not. */
  function LinesFrom(run: nat, data: seq<byte>): seq<nat>
    decreases |data|
  {
    if data == [] then (if run > 0 then [run] else [])
    else if data[0] == 10 then [run] + LinesFrom(0, data[1..])
    else LinesFrom(run + 1, data[1..])
  }

  function Lines(data: seq<byte>): seq<nat> {
    LinesFrom(0, data)
  }

  /** A line wraps into records of at most `max` bytes; an empty line is one empty record. */
  function Wrap(n: nat, max: nat): seq<nat>
    requires max > 0
  {
    if n <= max then [n] else [max] + Wrap(n - max, max)
  }

  function SizesOf(dcb: Dcb, records: seq<nat>): (ws: seq<nat>)
    ensures |ws| == |records|
    ensures forall i | 0 <= i < |ws| :: ws[i] == dcb.RecordSize(records[i])
  {
    seq(|records|, i requires 0 <= i < |records| => dcb.RecordSize(records[i]))
  }

  /** Sizes of the records the lines become, in order. */
  function RecordSizes(dcb: Dcb, lines: seq<nat>): (ws: seq<nat>)
    requires dcb.Usable()
    ensures Packable(dcb.Capacity(), ws)
  {
    if lines == [] then []
    else
      WrapBound(lines[0], dcb.RecordMax());
      SizesOf(dcb, Wrap(lines[0], dcb.RecordMax())) + RecordSizes(dcb, lines[1..])
  }

  /** Blocks the text of `data` takes: the greedy layout of its records. */
  function TextBlocks(dcb: Dcb, data: seq<byte>): nat
    requires dcb.Usable()
  {
    |Pack(dcb.Capacity(), RecordSizes(dcb, Lines(data)))|
  }

  lemma WrapBound(n: nat, max: nat)
    requires max > 0
    ensures forall i | 0 <= i < |Wrap(n, max)| :: Wrap(n, max)[i] <= max
    ensures Wrap(n, max) != []
  {
  }

  // ----- The running estimate -------------------------------------------------------------

  function RecordsForLine(n: int, reclen: int): nat {
    if reclen <= 0 then 0 else if n <= 0 then 1 else (n + reclen - 1) / reclen
  }

  /** Fixed format: a whole number of records per block, so pure division. */
  function EmitLineF(e: Estimate, n: nat): Estimate {
    if e.dcb.lrecl <= 0 || e.dcb.blksize / e.dcb.lrecl <= 0 then e
    else
      var perBlock := Quotient(e.dcb.blksize, e.dcb.lrecl);
      var total := Quotient(e.partial, e.dcb.lrecl) + RecordsForLine(n, e.dcb.lrecl);
      e.(full := e.full + Quotient(total, perBlock), partial := Product(total % perBlock, e.dcb.lrecl))
  }

  function Quotient(a: nat, b: nat): nat
    requires b > 0
  {
    a / b
  }

  function Product(a: nat, b: nat): nat {
    a * b
  }

  /** Variable format: one record of `chunk` data bytes placed in the open block. */
  function PlaceV(e: Estimate, chunk: nat): Estimate {
    var open := if e.partial == 0 then 4 else e.partial;
    if open + 4 + chunk > e.dcb.blksize
    then e.(full := e.full + 1, partial := 4 + 4 + chunk)
    else e.(partial := open + 4 + chunk)
  }

  function PlaceRecordsV(e: Estimate, records: seq<nat>): Estimate
    decreases |records|
  {
    if records == [] then e else PlaceRecordsV(PlaceV(e, records[0]), records[1..])
  }

  function EmitLine(e: Estimate, n: nat): Estimate {
    if e.dcb.recfm.V? then
      if e.dcb.lrecl <= 4 then e else PlaceRecordsV(e, Wrap(n, e.dcb.lrecl - 4))
    else EmitLineF(e, n)
  }

  /** The record loop of the variable format. */
  method EmitLineV(e: Estimate, n: nat) returns (r: Estimate)
    requires e.dcb.recfm.V?
    ensures r == EmitLine(e, n)
  {
    var dataMax := e.dcb.lrecl - 4;
    r := e;
    if dataMax <= 0 {
      return;
    }
    var left: nat := n;
    var count := RecordsForLine(n, dataMax);
    WrapLength(n, dataMax);
    for i := 0 to count
      invariant i < count ==> |Wrap(left, dataMax)| == count - i
      invariant i < count ==> PlaceRecordsV(r, Wrap(left, dataMax)) == EmitLine(e, n)
      invariant i == count ==> r == EmitLine(e, n)
    {
      var chunk := if left > dataMax then dataMax else left;
      r := PlaceV(r, chunk);
      left := left - chunk;
    }
  }

  /** Rounding-up division. */
  lemma CeilDiv(n: nat, d: nat)
    requires n > 0 && d > 0
    ensures var q := (n + d - 1) / d; q > 0 && (q - 1) * d < n <= q * d
  {
    var q := (n + d - 1) / d;
    assert n + d - 1 == q * d + (n + d - 1) % d;
    assert (q - 1) * d == q * d - d;
    if q <= 0 {
      MulMono(q, 0, d);
    }
  }

  lemma MulMono(a: int, b: int, c: nat)
    ensures a <= b ==> a * c <= b * c
  {
    if a <= b {
      assert (b - a) * c >= 0;
      assert (b - a) * c == b * c - a * c;
    }
  }

  /** One byte of the stream: LF ends the line, anything else lengthens it. */
  function AddByte(e: Estimate, b: byte): Estimate {
    if b == 10 then EmitLine(e, e.run).(run := 0) else e.(run := e.run + 1)
  }

  function AddAll(e: Estimate, data: seq<byte>): Estimate
    decreases |data|
  {
    if data == [] then e else AddAll(AddByte(e, data[0]), data[1..])
  }

  /** Fold a piece of the stream into the estimate; its last, unfinished line is carried. */
  method AddBlocksForData(e: Estimate, data: seq<byte>) returns (r: Estimate)
    ensures r == AddAll(e, data)
  {
    r := e;
    var run := e.run;
    for i := 0 to |data|
      invariant AddAll(r.(run := run), data[i..]) == AddAll(e, data)
    {
      assert data[i..][1..] == data[i + 1..];
      if data[i] == 10 {
        if r.dcb.recfm.V? {
          EmitIgnoresRun(r.(run := run), r.run, run);
          r := EmitLineV(r, run);
        } else {
          r := EmitLineF(r, run);
        }
        run := 0;
      } else {
        run := run + 1;
      }
    }
    r := r.(run := run);
  }

  lemma {:induction false} PlaceIgnoresRun(e: Estimate, run: nat, records: seq<nat>)
    ensures PlaceRecordsV(e.(run := run), records) == PlaceRecordsV(e, records).(run := run)
    decreases |records|
  {
    if records != [] {
      PlaceIgnoresRun(PlaceV(e, records[0]), run, records[1..]);
    }
  }

  lemma EmitIgnoresRun(e: Estimate, run: nat, n: nat)
    ensures EmitLine(e.(run := run), n) == EmitLine(e, n).(run := run)
  {
    if e.dcb.recfm.V? && e.dcb.lrecl > 4 {
      PlaceIgnoresRun(e, run, Wrap(n, e.dcb.lrecl - 4));
    }
  }

  /** Total blocks, counting an unfinished line as the record it would become. */
  function TotalBlocks(e: Estimate): nat {
    var t := if e.run > 0 then EmitLine(e, e.run) else e;
    t.full + if t.partial > 0 then 1 else 0
  }

  // ----- The estimate is the layout -------------------------------------------------------

  /** Feeding a stream in pieces is feeding it whole. */
  lemma {:induction false} AddInPieces(e: Estimate, a: seq<byte>, b: seq<byte>)
    ensures AddAll(AddAll(e, a), b) == AddAll(e, a + b)
    decreases |a|
  {
    if a == [] {
      assert a + b == b;
    } else {
      assert (a + b)[1..] == a[1..] + b;
      AddInPieces(AddByte(e, a[0]), a[1..], b);
    }
  }

  /** The counters of `e` stand for the records `ws` placed so far. */
  ghost predicate Represents(e: Estimate, ws: seq<nat>) {
    e.dcb.Usable() &&
    if e.dcb.recfm.V? then
      var o := PlaceAll(e.dcb.Capacity(), Open(0, 0), ws);
      e.full == o.full && e.partial == if o.used == 0 then 0 else 4 + o.used
    else
      var perBlock := e.dcb.blksize / e.dcb.lrecl;
      && perBlock > 0
      && (forall i | 0 <= i < |ws| :: ws[i] == e.dcb.lrecl)
      && e.full == |ws| / perBlock && e.partial == |ws| % perBlock * e.dcb.lrecl
  }

  /** `k` records of `lrecl` bytes overflow a block exactly when they exceed the quotient. */
  lemma PerBlock(blksize: nat, lrecl: nat, k: nat)
    requires 0 < lrecl <= blksize
    ensures 0 < blksize / lrecl
    ensures k * lrecl > blksize <==> k > blksize / lrecl
  {
    var q := blksize / lrecl;
    assert blksize == q * lrecl + blksize % lrecl;
    MulMono(q, 0, lrecl);
    MulMono(k, q, lrecl);
    MulMono(q + 1, k, lrecl);
    assert (q + 1) * lrecl == q * lrecl + lrecl;
  }

  lemma {:induction false} WrapLength(n: nat, max: nat)
    requires max > 0
    ensures |Wrap(n, max)| == RecordsForLine(n, max)
  {
    if n > max {
      WrapLength(n - max, max);
      assert n + max - 1 == (n - max + max - 1) + max;
      DivStep(n - 1, max);
    } else if n > 0 {
      CeilDiv(n, max);
      var q := RecordsForLine(n, max);
      MulMono(1, q - 1, max);
    }
  }

  lemma DivStep(a: nat, d: nat)
    requires d > 0
    ensures (a + d) / d == a / d + 1 && (a + d) % d == a % d
  {
    DivUnique(a + d, d, a / d + 1, a % d);
  }

  lemma DivUnique(a: nat, d: nat, q: nat, r: nat)
    requires d > 0 && a == q * d + r && r < d
    ensures a / d == q && a % d == r
  {
    var q', r' := a / d, a % d;
    assert q' * d + r' == q * d + r;
    MulMono(q + 1, q', d);
    MulMono(q' + 1, q, d);
    assert (q + 1) * d == q * d + d && (q' + 1) * d == q' * d + d;
  }

  lemma DivAdd(a: nat, k: nat, p: nat)
    requires p > 0
    ensures (a + k) / p == a / p + (a % p + k) / p && (a + k) % p == (a % p + k) % p
  {
    var t := a % p + k;
    DivMod(a, p);
    DivMod(t, p);
    Distributes(a / p, t / p, p);
    DivUnique(a + k, p, a / p + t / p, t % p);
  }

  lemma DivMod(a: nat, d: nat)
    requires d > 0
    ensures a == a / d * d + a % d && 0 <= a % d < d && a / d >= 0
  {
  }

  lemma Distributes(a: int, b: int, c: int)
    ensures (a + b) * c == a * c + b * c
  {
  }

  lemma NextDiv(n: nat, p: nat)
    requires p > 0
    ensures n % p + 1 == p ==> (n + 1) / p == n / p + 1 && (n + 1) % p == 0
    ensures n % p + 1 < p ==> (n + 1) / p == n / p && (n + 1) % p == n % p + 1
    ensures n % p < p
  {
    DivAdd(n, 1, p);
    if n % p + 1 == p {
      DivUnique(p, p, 1, 0);
    } else {
      DivUnique(n % p + 1, p, 0, n % p + 1);
    }
  }

  lemma CeilByDiv(n: nat, p: nat)
    requires n > 0 && p > 0
    ensures (n - 1) / p + 1 == n / p + (if n % p > 0 then 1 else 0)
  {
    NextDiv(n - 1, p);
  }

  lemma EmitFRepresents(e: Estimate, ws: seq<nat>, records: seq<nat>, n: nat)
    requires Represents(e, ws) && !e.dcb.recfm.V?
    requires |records| == RecordsForLine(n, e.dcb.lrecl)
    ensures Represents(EmitLineF(e, n), ws + SizesOf(e.dcb, records))
  {
    var p := e.dcb.blksize / e.dcb.lrecl;
    DivUnique(e.partial, e.dcb.lrecl, |ws| % p, 0);
    DivAdd(|ws|, |records|, p);
  }

  /** Emitting a line adds its records. */
  lemma EmitRepresents(e: Estimate, ws: seq<nat>, n: nat)
    requires Represents(e, ws)
    ensures Represents(EmitLine(e, n), ws + SizesOf(e.dcb, Wrap(n, e.dcb.RecordMax())))
    ensures EmitLine(e, n).dcb == e.dcb && EmitLine(e, n).run == e.run
  {
    var records := Wrap(n, e.dcb.RecordMax());
    if e.dcb.recfm.V? {
      WrapBound(n, e.dcb.RecordMax());
      PlaceRecordsRepresents(e, ws, records);
    } else {
      WrapLength(n, e.dcb.lrecl);
      EmitFRepresents(e, ws, records, n);
    }
  }

  lemma {:induction false} PlaceRecordsRepresents(e: Estimate, ws: seq<nat>, records: seq<nat>)
    requires e.dcb.recfm.V? && Represents(e, ws)
    requires forall i | 0 <= i < |records| :: records[i] <= e.dcb.RecordMax()
    ensures Represents(PlaceRecordsV(e, records), ws + SizesOf(e.dcb, records))
    ensures PlaceRecordsV(e, records).dcb == e.dcb && PlaceRecordsV(e, records).run == e.run
    decreases |records|
  {
    if records == [] {
      assert ws + SizesOf(e.dcb, records) == ws;
    } else {
      var w := 4 + records[0];
      PlaceAllAppend(e.dcb.Capacity(), Open(0, 0), ws, [w]);
      PlaceRecordsRepresents(PlaceV(e, records[0]), ws + [w], records[1..]);
      assert ws + SizesOf(e.dcb, records) == (ws + [w]) + SizesOf(e.dcb, records[1..]);
    }
  }

  /** N records of one size: the open block of the on-line packing. */
  lemma {:induction false} PlaceFixed(blksize: nat, l: nat, ws: seq<nat>)
    requires 0 < l <= blksize && ws != [] && forall i | 0 <= i < |ws| :: ws[i] == l
    ensures blksize / l > 0
    ensures PlaceAll(blksize, Open(0, 0), ws)
         == Open((|ws| - 1) / (blksize / l), ((|ws| - 1) % (blksize / l) + 1) * l)
  {
    PerBlock(blksize, l, 1);
    var p, n := blksize / l, |ws| - 1;
    var init := ws[..n];
    assert ws == init + [l];
    PlaceAllAppend(blksize, Open(0, 0), init, [l]);
    if n > 0 {
      PlaceFixed(blksize, l, init);
      var j := (n - 1) % p;
      PerBlock(blksize, l, j + 2);
      Distributes(j + 1, 1, l);
      NextDiv(n - 1, p);
    } else {
      DivUnique(0, p, 0, 0);
    }
  }

  lemma FixedCounts(blksize: nat, l: nat, ws: seq<nat>)
    requires 0 < l <= blksize && forall i | 0 <= i < |ws| :: ws[i] == l
    ensures var p := blksize / l;
      p > 0 && PlaceAll(blksize, Open(0, 0), ws).Count() == |ws| / p + (if |ws| % p > 0 then 1 else 0)
  {
    PerBlock(blksize, l, 1);
    var p := blksize / l;
    if ws == [] {
      DivUnique(0, p, 0, 0);
    } else {
      PlaceFixed(blksize, l, ws);
      MulMono(1, (|ws| - 1) % p + 1, l);
      CeilByDiv(|ws|, p);
    }
  }

  /** Counters that stand for some records count the blocks of their greedy layout. */
  lemma RepresentsCounts(e: Estimate, ws: seq<nat>)
    requires Represents(e, ws) && Packable(e.dcb.Capacity(), ws)
    ensures e.full + (if e.partial > 0 then 1 else 0) == |Pack(e.dcb.Capacity(), ws)|
  {
    OnlineIsPack(e.dcb.Capacity(), 0, ws);
    if !e.dcb.recfm.V? {
      FixedCounts(e.dcb.blksize, e.dcb.lrecl, ws);
      var r := |ws| % (e.dcb.blksize / e.dcb.lrecl);
      MulMono(1, r, e.dcb.lrecl);
    }
  }

  function LineSizes(dcb: Dcb, n: nat): (ws: seq<nat>)
    requires dcb.Usable()
    ensures Packable(dcb.Capacity(), ws)
  {
    WrapBound(n, dcb.RecordMax());
    SizesOf(dcb, Wrap(n, dcb.RecordMax()))
  }

  lemma FirstLine(dcb: Dcb, n: nat, lines: seq<nat>)
    requires dcb.Usable()
    ensures RecordSizes(dcb, [n] + lines) == LineSizes(dcb, n) + RecordSizes(dcb, lines)
    ensures RecordSizes(dcb, [n]) == LineSizes(dcb, n)
  {
    assert ([n] + lines)[1..] == lines;
    assert [n][1..] == [];
    assert RecordSizes(dcb, [n]) == LineSizes(dcb, n) + [];
  }

  lemma EmitLineRepresents(e: Estimate, ws: seq<nat>)
    requires Represents(e, ws)
    ensures var next := EmitLine(e, e.run).(run := 0);
      Represents(next, ws + LineSizes(e.dcb, e.run)) && next.dcb == e.dcb
  {
    EmitRepresents(e, ws, e.run);
  }

  lemma TotalCounts(e: Estimate, ws: seq<nat>)
    requires Represents(e, ws) && Packable(e.dcb.Capacity(), ws)
    ensures
      var all := ws + RecordSizes(e.dcb, LinesFrom(e.run, []));
      TotalBlocks(e) == |Pack(e.dcb.Capacity(), all)|
  {
    var all := ws + RecordSizes(e.dcb, LinesFrom(e.run, []));
    if e.run > 0 {
      FirstLine(e.dcb, e.run, []);
      EmitRepresents(e, ws, e.run);
      RepresentsCounts(EmitLine(e, e.run), all);
    } else {
      assert all == ws;
      RepresentsCounts(e, all);
    }
  }

  /** From counters that stand for `ws`, any further text leaves counters whose total is the
      layout of everything so far. */
  lemma {:induction false} AddAllCounts(e: Estimate, ws: seq<nat>, data: seq<byte>)
    requires Represents(e, ws) && Packable(e.dcb.Capacity(), ws)
    ensures
      var all := ws + RecordSizes(e.dcb, LinesFrom(e.run, data));
      TotalBlocks(AddAll(e, data)) == |Pack(e.dcb.Capacity(), all)|
    decreases |data|
  {
    if data == [] {
      TotalCounts(e, ws);
    } else if data[0] == 10 {
      var line, lines := LineSizes(e.dcb, e.run), LinesFrom(0, data[1..]);
      EmitLineRepresents(e, ws);
      AddAllCounts(AddByte(e, data[0]), ws + line, data[1..]);
      FirstLine(e.dcb, e.run, lines);
      Assoc(ws, line, RecordSizes(e.dcb, lines));
    } else {
      AddAllCounts(AddByte(e, data[0]), ws, data[1..]);
    }
  }

  /** Whatever pieces a stream arrives in, the running total is the number of blocks of the
      layout of the whole text, and no in-order layout of its records takes fewer. */
  lemma EstimateIsLayout(dcb: Dcb, data: seq<byte>)
    requires dcb.Usable()
    ensures TotalBlocks(AddAll(Init(dcb), data)) == TextBlocks(dcb, data)
    ensures forall blocks | Layout(dcb.Capacity(), RecordSizes(dcb, Lines(data)), blocks) ::
              TextBlocks(dcb, data) <= |blocks|
  {
    if !dcb.recfm.V? {
      PerBlock(dcb.blksize, dcb.lrecl, 1);
    }
    assert Represents(Init(dcb), []);
    AddAllCounts(Init(dcb), [], data);
    var ws := RecordSizes(dcb, Lines(data));
    assert [] + ws == ws;
    forall blocks | Layout(dcb.Capacity(), ws, blocks)
      ensures |Pack(dcb.Capacity(), ws)| <= |blocks|
    {
      PackMinimal(dcb.Capacity(), ws, blocks);
    }
  }

  lemma {:induction false} WrapGrows(n: nat, m: nat, max: nat)
    requires max > 0 && n <= m
    ensures Dominated(Wrap(n, max), Wrap(m, max))
    decreases m
  {
    if n > max {
      WrapGrows(n - max, m - max, max);
    } else if m > max {
      WrapBound(m, max);
    }
  }

  /** More text only adds records, or lengthens the last one. */
  lemma {:induction false} LinesGrow(dcb: Dcb, run: nat, a: seq<byte>, b: seq<byte>)
    requires dcb.Usable()
    ensures Dominated(RecordSizes(dcb, LinesFrom(run, a)), RecordSizes(dcb, LinesFrom(run, a + b)))
    decreases |a| + |b|
  {
    if a != [] {
      assert (a + b)[1..] == a[1..] + b;
      LinesGrow(dcb, if a[0] == 10 then 0 else run + 1, a[1..], b);
      if a[0] == 10 {
        FirstLine(dcb, run, LinesFrom(0, a[1..]));
        FirstLine(dcb, run, LinesFrom(0, (a + b)[1..]));
      }
    } else {
      assert a + b == b;
      FirstLine(dcb, run, []);
      if b != [] && b[0] == 10 {
        FirstLine(dcb, run, LinesFrom(0, b[1..]));
      } else if b != [] {
        LinesGrow(dcb, run + 1, [], b[1..]);
        assert [] + b[1..] == b[1..];
        FirstLine(dcb, run + 1, []);
        WrapGrows(run, run + 1, dcb.RecordMax());
      }
    }
  }

  /** Appending never lowers the block count. */
  lemma TextBlocksMonotone(dcb: Dcb, a: seq<byte>, b: seq<byte>)
    requires dcb.Usable()
    ensures TextBlocks(dcb, a) <= TextBlocks(dcb, a + b)
  {
    LinesGrow(dcb, 0, a, b);
    PackMonotone(dcb.Capacity(), RecordSizes(dcb, Lines(a)), RecordSizes(dcb, Lines(a + b)));
  }
}
