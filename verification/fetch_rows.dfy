/** The row-parallel driver of the fetch analysis: each worker fills the
    rows it owns with one kernel call per data cell and sends them, and the
    collector writes each received row into the output raster. */
module FetchRows {
  import opened Grid
  import opened Geometry
  import opened RayMarch

  /** The value the kernel leaves in column `col` of the row buffer: the
      nodata value for a nodata cell, the fetch distance otherwise. */
  function CellOutput(s: Scene, row: int, col: int, heightIncrement: real): real
    requires Walkable(s, row, col)
  {
    if s.g.At(row, col) != s.g.nodata then FetchDistance(s, row, col, heightIncrement) else s.g.nodata
  }

  /** The finished buffer of one row, as a reference definition. */
  function RowValues(s: Scene, row: int, heightIncrement: real): seq<real>
    requires 0 <= row < s.g.Rows() && UnitSteps(s.geo)
  {
    seq(s.g.columns, col requires 0 <= col < s.g.columns => CellOutput(s, row, col, heightIncrement))
  }

  /** The whole fetch grid: row r holds `RowValues(r)`. */
  function FetchGrid(s: Scene, heightIncrement: real): seq<seq<real>>
    requires UnitSteps(s.geo)
  {
    seq(s.g.Rows(), row requires 0 <= row < s.g.Rows() => RowValues(s, row, heightIncrement))
  }

  /** One worker's pass over one row: the buffer starts as all nodata and
      only the columns whose cell holds data are overwritten. */
  method ComputeRow(s: Scene, row: int, heightIncrement: real) returns (data: seq<real>)
    requires s.g.Valid() && 0 <= row < s.g.Rows() && UnitSteps(s.geo)
    ensures |data| == s.g.columns
    ensures forall col :: 0 <= col < s.g.columns && s.g.cells[row][col] == s.g.nodata ==> data[col] == s.g.nodata
    ensures forall col :: 0 <= col < s.g.columns && s.g.cells[row][col] != s.g.nodata ==>
              data[col] == FetchDistance(s, row, col, heightIncrement)
    ensures data == RowValues(s, row, heightIncrement)
  {
    data := seq(s.g.columns, _ => s.g.nodata);
    var col := 0;
    while col < s.g.columns
      invariant 0 <= col <= s.g.columns
      invariant |data| == s.g.columns
      invariant forall c :: 0 <= c < col ==> data[c] == CellOutput(s, row, c, heightIncrement)
      invariant forall c :: col <= c < s.g.columns ==> data[c] == s.g.nodata
    {
      var current := s.g.At(row, col);
      if current != s.g.nodata {
        data := data[col := FetchDistance(s, row, col, heightIncrement)];
      }
      col := col + 1;
    }
  }

  // ---------------------------------------------------------------------
  // Row partition: worker `tid` of `procs` takes the rows r with r % procs == tid.
  // ---------------------------------------------------------------------

  /** The rows worker `tid` owns, in the ascending order it visits them,
      from row `lo` on. */
  function WorkerRows(lo: nat, rows: nat, procs: nat, tid: nat): (rs: seq<nat>)
    requires procs >= 1
    decreases rows - lo
    ensures forall r :: r in rs ==> lo <= r < rows && r % procs == tid
    ensures forall r: nat :: multiset(rs)[r] == if lo <= r < rows && r % procs == tid then 1 else 0
  {
    if lo >= rows then []
    else
      var tail := WorkerRows(lo + 1, rows, procs, tid);
      var head := if lo % procs == tid then [lo] else [];
      assert multiset(head + tail) == multiset(head) + multiset(tail);
      head + tail
  }

  /** Every worker's rows, worker `tid` onwards, one worker after another. */
  function SentRows(tid: nat, rows: nat, procs: nat): (rs: seq<nat>)
    requires procs >= 1
    decreases procs - tid
    ensures forall r :: r in rs ==> r < rows && tid <= r % procs
    ensures forall r: nat :: multiset(rs)[r] == if r < rows && tid <= r % procs then 1 else 0
  {
    if tid >= procs then []
    else
      var w := WorkerRows(0, rows, procs, tid);
      var rest := SentRows(tid + 1, rows, procs);
      assert multiset(w + rest) == multiset(w) + multiset(rest);
      assert forall r: nat :: multiset(w + rest)[r] == if r < rows && tid <= r % procs then 1 else 0 by {
        forall r: nat
          ensures multiset(w + rest)[r] == if r < rows && tid <= r % procs then 1 else 0
        {
          var m := r % procs;
          assert multiset(w)[r] == if r < rows && m == tid then 1 else 0;
          assert multiset(rest)[r] == if r < rows && tid + 1 <= m then 1 else 0;
        }
      }
      w + rest
  }

  function Range(lo: nat, hi: nat): (rs: seq<nat>)
    decreases hi - lo
  {
    if lo >= hi then [] else [lo] + Range(lo + 1, hi)
  }

  /** A worker visits its rows in strictly ascending order, starting at `lo`
      or later. */
  lemma {:induction false} WorkerRowsAscending(lo: nat, rows: nat, procs: nat, tid: nat)
    requires procs >= 1
    ensures forall i :: 0 <= i < |WorkerRows(lo, rows, procs, tid)| ==> lo <= WorkerRows(lo, rows, procs, tid)[i] < rows
    ensures forall i, j :: 0 <= i < j < |WorkerRows(lo, rows, procs, tid)| ==>
              WorkerRows(lo, rows, procs, tid)[i] < WorkerRows(lo, rows, procs, tid)[j]
    decreases rows - lo
  {
    if lo < rows {
      WorkerRowsAscending(lo + 1, rows, procs, tid);
      var rest := WorkerRows(lo + 1, rows, procs, tid);
      if lo % procs == tid {
        assert WorkerRows(lo, rows, procs, tid) == [lo] + rest;
      } else {
        assert WorkerRows(lo, rows, procs, tid) == rest;
      }
    }
  }

  lemma {:induction false} RangeCount(lo: nat, hi: nat, r: nat)
    ensures multiset(Range(lo, hi))[r] == if lo <= r < hi then 1 else 0
    decreases hi - lo
  {
    if lo < hi {
      RangeCount(lo + 1, hi, r);
      var tail := Range(lo + 1, hi);
      assert Range(lo, hi) == [lo] + tail;
      assert multiset([lo] + tail) == multiset([lo]) + multiset(tail);
      assert multiset([lo])[r] == if r == lo then 1 else 0;
    }
  }

  /** The partition is exact: over all workers every row is sent exactly
      once, and exactly `rows` messages are sent, which is the number the
      collector waits for. */
  lemma AllRowsSentOnce(rows: nat, procs: nat)
    requires procs >= 1
    ensures multiset(SentRows(0, rows, procs)) == multiset(Range(0, rows))
    ensures |SentRows(0, rows, procs)| == rows
  {
    forall r: nat
      ensures multiset(SentRows(0, rows, procs))[r] == multiset(Range(0, rows))[r]
    {
      RangeCount(0, rows, r);
    }
    RangeLength(0, rows);
  }

  lemma {:induction false} RangeLength(lo: nat, hi: nat)
    ensures |Range(lo, hi)| == if lo <= hi then hi - lo else 0
    decreases hi - lo
  {
    if lo < hi {
      RangeLength(lo + 1, hi);
    }
  }

  // ---------------------------------------------------------------------
  // Collector: `rows` messages are received in any order and written with
  // set_row_data.
  // ---------------------------------------------------------------------

  /** One message on the channel: a row index and that row's buffer. */
  datatype Message = Message(row: int, data: seq<real>)

  predicate RowsIn(msgs: seq<Message>, rows: nat)
  {
    forall i :: 0 <= i < |msgs| ==> 0 <= msgs[i].row < rows
  }

  /** Some message carries row r. */
  predicate Touches(msgs: seq<Message>, r: int)
  {
    exists i :: 0 <= i < |msgs| && msgs[i].row == r
  }

  /** No later message carries the same row as message i. */
  predicate LastFor(msgs: seq<Message>, i: int)
    requires 0 <= i < |msgs|
  {
    forall j :: i < j < |msgs| ==> msgs[j].row != msgs[i].row
  }

  /** Writing the messages in arrival order: the last message for a row
      decides it, and rows no message carries keep their initial content. */
  function Collect(out: seq<seq<real>>, msgs: seq<Message>): (o: seq<seq<real>>)
    requires RowsIn(msgs, |out|)
    ensures |o| == |out|
    ensures forall r :: 0 <= r < |out| && !Touches(msgs, r) ==> o[r] == out[r]
    ensures forall i :: 0 <= i < |msgs| && LastFor(msgs, i) ==> o[msgs[i].row] == msgs[i].data
    decreases |msgs|
  {
    if |msgs| == 0 then out
    else
      var m := msgs[0];
      var rest := msgs[1..];
      assert forall i :: 0 <= i < |rest| ==> rest[i] == msgs[i + 1];
      Collect(out[m.row := m.data], rest)
  }

  /** The collector loop of the driver. */
  method CollectRows(out: seq<seq<real>>, arrival: seq<Message>) returns (o: seq<seq<real>>)
    requires RowsIn(arrival, |out|)
    ensures o == Collect(out, arrival)
    ensures |o| == |out|
  {
    o := out;
    var i := 0;
    while i < |arrival|
      invariant 0 <= i <= |arrival|
      invariant |o| == |out|
      invariant Collect(out, arrival) == Collect(o, arrival[i..])
    {
      assert arrival[i..][1..] == arrival[i + 1..];
      o := o[arrival[i].row := arrival[i].data];
      i := i + 1;
    }
    assert arrival[i..] == [];
  }

  /** Every message carries the buffer `want` assigns to its row. */
  predicate Functional(msgs: seq<Message>, want: seq<seq<real>>)
  {
    forall i :: 0 <= i < |msgs| ==> 0 <= msgs[i].row < |want| && msgs[i].data == want[msgs[i].row]
  }

  /** When every message is consistent with `want`, each row some message
      carries ends up as `want` says, whatever the arrival order and even
      with repeats. */
  lemma CollectFunctional(out: seq<seq<real>>, msgs: seq<Message>, want: seq<seq<real>>)
    requires |want| == |out| && Functional(msgs, want)
    ensures RowsIn(msgs, |out|)
    ensures var o := Collect(out, msgs);
            forall r :: 0 <= r < |out| ==> o[r] == if Touches(msgs, r) then want[r] else out[r]
  {
    var o := Collect(out, msgs);
    forall r | 0 <= r < |out| && Touches(msgs, r)
      ensures o[r] == want[r]
    {
      var i :| 0 <= i < |msgs| && msgs[i].row == r;
      var k := LastIndex(msgs, r, i);
    }
  }

  /** The last message carrying row r, found from a message i that does. */
  lemma {:induction false} LastIndex(msgs: seq<Message>, r: int, i: int) returns (k: int)
    requires 0 <= i < |msgs| && msgs[i].row == r
    ensures i <= k < |msgs| && msgs[k].row == r && LastFor(msgs, k)
    decreases |msgs| - i
  {
    if LastFor(msgs, i) {
      k := i;
    } else {
      var j :| i < j < |msgs| && msgs[j].row == r;
      k := LastIndex(msgs, r, j);
    }
  }

  /** Two arrival orders of consistent messages covering the same rows give
      the same output. */
  lemma CollectOrderIndependent(out: seq<seq<real>>, a: seq<Message>, b: seq<Message>, want: seq<seq<real>>)
    requires |want| == |out| && Functional(a, want) && Functional(b, want)
    requires forall r :: Touches(a, r) <==> Touches(b, r)
    ensures RowsIn(a, |out|) && RowsIn(b, |out|)
    ensures Collect(out, a) == Collect(out, b)
  {
    CollectFunctional(out, a, want);
    CollectFunctional(out, b, want);
  }

  /** The messages the workers send, in worker order. */
  function SentMessages(s: Scene, heightIncrement: real, procs: nat): seq<Message>
    requires procs >= 1 && UnitSteps(s.geo)
  {
    var rs := SentRows(0, s.g.Rows(), procs);
    seq(|rs|, i requires 0 <= i < |rs| => RowOf(s, heightIncrement, rs[i]))
  }

  function RowOf(s: Scene, heightIncrement: real, row: int): Message
    requires UnitSteps(s.geo)
  {
    if 0 <= row < s.g.Rows() then Message(row, RowValues(s, row, heightIncrement)) else Message(row, [])
  }

  /** Every sent message carries its row of the fetch grid, and every row
      is carried by some message. */
  lemma SentMessagesCoverGrid(s: Scene, heightIncrement: real, procs: nat)
    requires procs >= 1 && UnitSteps(s.geo)
    ensures Functional(SentMessages(s, heightIncrement, procs), FetchGrid(s, heightIncrement))
    ensures forall r :: 0 <= r < s.g.Rows() ==> Touches(SentMessages(s, heightIncrement, procs), r)
  {
    var rows := s.g.Rows();
    var sent := SentMessages(s, heightIncrement, procs);
    var rs := SentRows(0, rows, procs);
    var want := FetchGrid(s, heightIncrement);
    forall j | 0 <= j < |sent|
      ensures 0 <= sent[j].row < |want| && sent[j].data == want[sent[j].row]
    {
      assert rs[j] in multiset(rs);
    }
    forall r | 0 <= r < rows
      ensures Touches(sent, r)
    {
      assert r in multiset(rs);
      var j :| 0 <= j < |rs| && rs[j] == r;
      assert sent[j].row == r;
    }
  }

  /** Reordering the messages keeps them consistent with `want` and keeps
      the set of rows they carry. */
  lemma ReorderKeepsShape(a: seq<Message>, b: seq<Message>, want: seq<seq<real>>)
    requires multiset(a) == multiset(b) && Functional(a, want)
    ensures Functional(b, want)
    ensures forall r :: Touches(a, r) ==> Touches(b, r)
  {
    forall i | 0 <= i < |b|
      ensures 0 <= b[i].row < |want| && b[i].data == want[b[i].row]
    {
      assert b[i] in multiset(a);
      var j :| 0 <= j < |a| && a[j] == b[i];
    }
    forall r | Touches(a, r)
      ensures Touches(b, r)
    {
      var j :| 0 <= j < |a| && a[j].row == r;
      assert a[j] in multiset(b);
      var i :| 0 <= i < |b| && b[i] == a[j];
    }
  }

  /** End to end: whichever order the channel delivers the workers'
      messages in, the collected output is the fetch grid. */
  lemma CollectedOutputIsFetchGrid(s: Scene, heightIncrement: real, procs: nat,
                                   out: seq<seq<real>>, arrival: seq<Message>)
    requires procs >= 1 && UnitSteps(s.geo) && |out| == s.g.Rows()
    requires multiset(arrival) == multiset(SentMessages(s, heightIncrement, procs))
    ensures RowsIn(arrival, |out|)
    ensures Collect(out, arrival) == FetchGrid(s, heightIncrement)
  {
    var sent := SentMessages(s, heightIncrement, procs);
    var want := FetchGrid(s, heightIncrement);
    SentMessagesCoverGrid(s, heightIncrement, procs);
    ReorderKeepsShape(sent, arrival, want);
    CollectFunctional(out, arrival, want);
  }
}
