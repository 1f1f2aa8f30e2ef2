/**
 Admitting a WRITE (src/mvsblkc.c, the write path entry point): the estimate of what the
 member will hold after the write, and the test that every member pending for the dataset
 still fits.
 */
module Admission {
  import opened Bytes
  import opened BlockCalc
  import opened TrackSpace

  /** A running estimate, and the byte offset up to which it has folded content in. */
  datatype Account = Account(est: Estimate, consumed: nat)

  /** The estimate of exactly the stream `s`. */
  function Folded(dcb: Dcb, s: seq<byte>): Account {
    Account(AddAll(Init(dcb), s), |s|)
  }

  /** What an account knows of a member: it folded `stream`, which `content` begins. The
      rest of `stream` is content that a shrink has cut off since. */
  ghost predicate Tracks(a: Account, dcb: Dcb, content: seq<byte>, stream: seq<byte>) {
    a == Folded(dcb, stream) && content <= stream
  }

  /** Blocks a member is charged: an empty one still costs its end-of-file block. */
  function Need(e: Estimate): nat {
    Max(1, TotalBlocks(e))
  }

  /** An account never charges less than the layout of the member's text, and charges exactly
      that when it has consumed no more than the member holds. */
  lemma NeverUndercounts(a: Account, dcb: Dcb, content: seq<byte>, stream: seq<byte>)
    requires dcb.Usable() && Tracks(a, dcb, content, stream)
    ensures TextBlocks(dcb, content) <= TotalBlocks(a.est)
    ensures a.consumed == |content| ==> TotalBlocks(a.est) == TextBlocks(dcb, content)
  {
    var cut := stream[|content|..];
    assert content + cut == stream;
    EstimateIsLayout(dcb, stream);
    TextBlocksMonotone(dcb, content, cut);
    if a.consumed == |content| {
      assert content == stream;
    }
  }

  /** Fold a stored range back in, 4096 bytes at a time. */
  method ScanStored(content: seq<byte>, e: Estimate, from: nat, to: nat) returns (r: Estimate)
    requires from <= to <= |content|
    ensures r == AddAll(e, content[from..to])
  {
    r := e;
    var off := from;
    while off < to
      invariant from <= off <= to && r == AddAll(e, content[from..off])
    {
      var n := Min(to - off, 4096);
      AddInPieces(e, content[from..off], content[off..off + n]);
      assert content[from..off] + content[off..off + n] == content[from..off + n];
      r := AddBlocksForData(r, content[off..off + n]);
      off := off + n;
    }
  }

  /** Fold in the zeros of a gap. */
  method ScanGap(e: Estimate, n: nat) returns (r: Estimate)
    ensures r == AddAll(e, Zeros(n))
  {
    r := e;
    var done := 0;
    while done < n
      invariant done <= n && r == AddAll(e, Zeros(done))
    {
      var c := Min(n - done, 4096);
      AddInPieces(e, Zeros(done), Zeros(c));
      assert Zeros(done) + Zeros(c) == Zeros(done + c);
      r := AddBlocksForData(r, Zeros(c));
      done := done + c;
    }
  }

  /** The account after the write: folded on for a strict append, rebuilt in three pieces
      otherwise. Both give the estimate of the content after the write. */
  method BuildTrial(a: Account, content: seq<byte>, data: seq<byte>, off: nat,
                    ghost dcb: Dcb, ghost stream: seq<byte>) returns (t: Account)
    requires a.est.dcb == dcb
    ensures t.est.dcb == dcb
    ensures Tracks(a, dcb, content, stream) || off != |content| ==> t == Folded(dcb, Splice(content, off, data))
  {
    var hw := |content|;
    if off == hw && a.consumed == hw {
      AddKeepsDcb(a.est, data);
      var e := AddBlocksForData(a.est, data);
      t := Account(e, off + |data|);
      if Tracks(a, dcb, content, stream) {
        assert stream == content;
        AddInPieces(Init(dcb), content, data);
        assert content + data == Splice(content, off, data);
      }
      return;
    }
    AddKeepsDcb(Init(dcb), Splice(content, off, data));
    var e := Init(a.est.dcb);
    ghost var front := if off <= hw then content[..off] else content + Zeros(off - hw);
    if off <= hw {
      e := ScanStored(content, e, 0, off);
    } else {
      e := ScanStored(content, e, 0, hw);
      assert content[0..hw] == content;
      AddInPieces(Init(dcb), content, Zeros(off - hw));
      e := ScanGap(e, off - hw);
    }
    AddInPieces(Init(dcb), front, data);
    e := AddBlocksForData(e, data);
    var end := off + |data|;
    if end < hw {
      AddInPieces(Init(dcb), front + data, content[end..hw]);
      e := ScanStored(content, e, end, hw);
      assert front + data + content[end..hw] == Splice(content, off, data);
      end := hw;
    } else {
      assert front + data == Splice(content, off, data);
    }
    t := Account(e, end);
  }

  lemma {:induction false} PlaceKeepsDcb(e: Estimate, records: seq<nat>)
    ensures PlaceRecordsV(e, records).dcb == e.dcb
    decreases |records|
  {
    if records != [] {
      PlaceKeepsDcb(PlaceV(e, records[0]), records[1..]);
    }
  }

  lemma {:induction false} AddKeepsDcb(e: Estimate, data: seq<byte>)
    ensures AddAll(e, data).dcb == e.dcb
    decreases |data|
  {
    if data != [] {
      if e.dcb.recfm.V? && e.dcb.lrecl > 4 {
        PlaceKeepsDcb(e, Wrap(e.run, e.dcb.lrecl - 4));
      }
      AddKeepsDcb(AddByte(e, data[0]), data[1..]);
    }
  }

  /** Does one member fit from `ttr` on, and where would it end? */
  method WillMemberFit(e: Estimate, ds: Dscb, ttr: nat) returns (fits: bool, last: nat)
    ensures last == Advance(ds, ttr, Need(e))
    ensures fits == (ds.bpt > 0 && Need(e) <= Available(ds, ttr))
  {
    last := Advance(ds, ttr, Need(e));
    fits := ds.bpt > 0 && Need(e) <= Available(ds, ttr);
  }
}
