/**
 The record count the flush takes for the ISPF statistics (src/mvspwfl.c, src/mvspdir.c),
 against the lines of the text and the records the space predictor counts.
 */
module FlushLines {
  import opened Bytes
  import opened BlockCalc

  function Feeds(data: seq<byte>): nat {
    if data == [] then 0 else Feeds(data[..|data| - 1]) + if data[|data| - 1] == 10 then 1 else 0
  }

  lemma {:induction false} FeedsAppend(a: seq<byte>, b: seq<byte>)
    ensures Feeds(a + b) == Feeds(a) + Feeds(b)
  {
    if b == [] {
      assert a + b == a;
    } else {
      var n := |b| - 1;
      assert (a + b)[..|a + b| - 1] == a + b[..n];
      FeedsAppend(a, b[..n]);
    }
  }

  /** Lines are line feeds, plus one when the text does not end in one. */
  lemma {:induction false} LinesAreFeeds(run: nat, data: seq<byte>)
    ensures |LinesFrom(run, data)|
         == Feeds(data) + if data == [] then (if run > 0 then 1 else 0)
                          else if data[|data| - 1] != 10 then 1 else 0
    decreases |data|
  {
    if data != [] {
      assert data == [data[0]] + data[1..];
      FeedsAppend([data[0]], data[1..]);
      assert [data[0]][..0] == [];
      LinesAreFeeds(if data[0] == 10 then 0 else run + 1, data[1..]);
    }
  }

  /** The whole-buffer count. */
  method CountLines(data: seq<byte>) returns (lines: nat)
    ensures lines == |Lines(data)|
  {
    lines := 0;
    if |data| == 0 {
      return;
    }
    lines := CountFeeds(data);
    LinesAreFeeds(0, data);
    if data[|data| - 1] != 10 {
      lines := lines + 1;
    }
  }

  method CountFeeds(piece: seq<byte>) returns (n: nat)
    ensures n == Feeds(piece)
  {
    n := 0;
    for i := 0 to |piece|
      invariant n == Feeds(piece[..i])
    {
      assert piece[..i + 1][..i] == piece[..i];
      if piece[i] == 10 {
        n := n + 1;
      }
    }
    assert piece[..|piece|] == piece;
  }

  /** The flush's count, taken chunk by chunk on the way out: for every chunk size the number
      of lines of the whole content. */
  method CountLinesInChunks(content: seq<byte>, chunk: nat) returns (lines: nat)
    requires chunk > 0
    ensures lines == |Lines(content)|
  {
    lines := 0;
    var last: byte := 0;
    var off := 0;
    while off < |content|
      invariant off <= |content| && lines == Feeds(content[..off])
      invariant off > 0 ==> last == content[off - 1]
    {
      var n := Min(|content| - off, chunk);
      var feeds := CountFeeds(content[off..off + n]);
      FeedsAppend(content[..off], content[off..off + n]);
      assert content[..off + n] == content[..off] + content[off..off + n];
      lines, last, off := lines + feeds, content[off + n - 1], off + n;
    }
    assert content[..off] == content;
    LinesAreFeeds(0, content);
    if |content| > 0 && last != 10 {
      lines := lines + 1;
    }
  }

  /** No more lines than records, and as many exactly when no line wraps. */
  lemma {:induction false} LinesVersusRecords(dcb: Dcb, lines: seq<nat>)
    requires dcb.Usable()
    ensures |lines| <= |RecordSizes(dcb, lines)|
    ensures |lines| == |RecordSizes(dcb, lines)|
       <==> forall i | 0 <= i < |lines| :: lines[i] <= dcb.RecordMax()
  {
    if lines != [] {
      LinesVersusRecords(dcb, lines[1..]);
      assert |Wrap(lines[0], dcb.RecordMax())| == 1 <==> lines[0] <= dcb.RecordMax() by {
        if lines[0] > dcb.RecordMax() {
          WrapBound(lines[0] - dcb.RecordMax(), dcb.RecordMax());
        }
      }
      assert forall i | 1 <= i < |lines| :: lines[i] == lines[1..][i - 1];
    }
  }
}
