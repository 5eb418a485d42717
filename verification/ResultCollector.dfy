/** The collector and the observing reader as the source keeps them, proved against ResultCapture. */
module ResultCollector {
  import opened Wrappers
  import opened ResultCapture

  class Collector {
    const limits: Limits
    var columns: seq<string>
    var rows: seq<seq<Entry>>
    var capturedBytes: nat
    var rowsObserved: nat
    var columnsCaptured: bool
    var truncated: bool
    var currentRow: array?<Option<CapturedCell>>
    var currentRowObserved: array?<bool>

    ghost predicate Valid()
      reads this, currentRow, currentRowObserved
    {
      && (currentRow == null <==> currentRowObserved == null)
      && (currentRow != null ==>
            && currentRow.Length == currentRowObserved.Length == |columns|
            && forall i :: 0 <= i < currentRow.Length ==> (currentRowObserved[i] <==> currentRow[i].Some?))
    }

    ghost function Current(): Option<seq<Option<CapturedCell>>>
      reads this, currentRow
    {
      if currentRow == null then None else Some(currentRow[..])
    }

    ghost function View(): Collected
      reads this, currentRow
    {
      Collected(columns, rows, capturedBytes, rowsObserved, columnsCaptured, truncated, Current())
    }

    constructor (limits: Limits)
      ensures Valid() && View() == NOTHING && this.limits == limits && currentRow == null && currentRowObserved == null
    {
      this.limits := limits;
      columns, rows, capturedBytes, rowsObserved, columnsCaptured, truncated := [], [], 0, 0, false, false;
      currentRow, currentRowObserved := null, null;
    }

    method CaptureSchema(fields: seq<string>)
      requires Valid() && (columnsCaptured || currentRow == null)
      modifies this`columns, this`truncated, this`columnsCaptured
      ensures Valid() && View() == WithSchema(limits, old(View()), fields)
    {
      if columnsCaptured {
        return;
      }
      ghost var before := columns;
      for ordinal := 0 to Min(|fields|, limits.maximumColumns)
        invariant columns == before + fields[..ordinal]
      {
        columns := columns + [fields[ordinal]];
      }
      truncated := |fields| > limits.maximumColumns;
      columnsCaptured := true;
    }

    method BeginRow(fields: seq<string>)
      requires Valid() && (columnsCaptured || currentRow == null)
      modifies this
      ensures Valid() && View() == WithNewRow(limits, old(View()), fields)
      ensures fresh(currentRow) && fresh(currentRowObserved)
    {
      CaptureSchema(fields);
      CompleteRow();
      rowsObserved := rowsObserved + 1;
      StartRow();
    }

    method StartRow()
      modifies this`currentRow, this`currentRowObserved
      ensures Valid() && fresh(currentRow) && fresh(currentRowObserved)
      ensures Current() == Some(Blank(|columns|))
    {
      currentRow := new Option<CapturedCell>[|columns|](_ => None);
      currentRowObserved := new bool[|columns|](_ => false);
      assert currentRow[..] == Blank(|columns|);
    }

    method CaptureCell(ordinal: int, value: DbValue)
      requires Valid()
      modifies currentRow, currentRowObserved
      ensures Valid() && View() == WithCell(limits, old(View()), ordinal, value)
    {
      if currentRow == null || currentRowObserved == null || ordinal < 0 || ordinal >= currentRow.Length {
        return;
      }
      currentRow[ordinal] := Some(ValueNode(value, limits.maximumCellBytes));
      currentRowObserved[ordinal] := true;
    }

    method CompleteRow()
      requires Valid()
      modifies this
      ensures Valid() && View() == WithRow(limits, old(View()))
      ensures currentRow == null && currentRowObserved == null
    {
      if currentRow == null || currentRowObserved == null {
        return;
      }
      if |rows| >= limits.maximumRows {
        truncated := true;
        DropRow();
        return;
      }
      var packed := PackRow();
      capturedBytes, truncated := packed.bytes, packed.truncated;
      rows := rows + [packed.row];
      DropRow();
    }

    method DropRow()
      modifies this`currentRow, this`currentRowObserved
      ensures currentRow == null && currentRowObserved == null
    {
      currentRow, currentRowObserved := null, null;
    }

    /** The result reports every captured row, and truncation unless the rows ran out and nothing was cut. */
    method BuildResult(readerCompleted: bool) returns (result: ResultSet)
      ensures result.columns == columns && result.rows == rows
      ensures result.rowsCaptured == |result.rows| && result.rowsObserved == rowsObserved
      ensures !result.truncated <==> readerCompleted && !truncated
    {
      result := ResultSet(columns, rows, rowsObserved, |rows|, truncated || !readerCompleted);
    }

    /** Goes over the row in progress, cell by cell, counting the bytes of those it stores. */
    method PackRow() returns (packed: Packed)
      requires Valid() && currentRow != null && currentRowObserved != null
      ensures packed == Pack(limits, currentRow[..], capturedBytes, truncated)
    {
      var row: seq<Entry>, bytes: nat, cut: bool := [], capturedBytes, truncated;
      for ordinal := 0 to |columns|
        invariant Packed(row, bytes, cut) == Pack(limits, currentRow[..ordinal], capturedBytes, truncated)
      {
        assert currentRow[..ordinal + 1][..ordinal] == currentRow[..ordinal];
        if !currentRowObserved[ordinal] {
          row := row + [NotRead];
          continue;
        }
        var cell := currentRow[ordinal].value;
        var encodedLength := limits.measure(cell.node);
        cut := cut || cell.truncated;
        if bytes + encodedLength > limits.maximumBytes {
          cut := true;
          row := row + [TooLarge];
          continue;
        }
        bytes := bytes + encodedLength;
        row := row + [Stored(cell.node)];
      }
      assert currentRow[..|columns|] == currentRow[..];
      packed := Packed(row, bytes, cut);
    }
  }

  /** The reader wrapper: every call first closes the row in progress, and the first end sends the terminal. */
  class ObservingReader {
    const collector: Collector
    var readerCompleted: bool
    var terminalQueued: bool
    var emitted: seq<Terminal>
    ghost var log: seq<seq<Option<DbValue>>>
    ghost var ended: bool
    ghost var offered: seq<string>

    ghost predicate Valid()
      reads this, collector, collector.currentRow, collector.currentRowObserved
    {
      collector.Valid() && (collector.columnsCaptured || collector.currentRow == null)
    }

    ghost function View(): Reader
      reads this, collector, collector.currentRow
    {
      Reader(collector.View(), readerCompleted, terminalQueued, emitted, log, ended, offered)
    }

    constructor (limits: Limits)
      ensures Valid() && View() == OPENED && collector.limits == limits && fresh(collector)
    {
      collector := new Collector(limits);
      readerCompleted, terminalQueued, emitted, log, ended, offered := false, false, [], [], false, [];
    }

    method TryQueueTerminal() returns (first: bool)
      modifies this`terminalQueued
      ensures first == !old(terminalQueued) && terminalQueued
    {
      first := !terminalQueued;
      terminalQueued := true;
    }

    method Fail()
      modifies this`terminalQueued, this`emitted
      ensures View() == Emitted(old(View()), WithFailure)
    {
      var first := TryQueueTerminal();
      if first {
        emitted := emitted + [WithFailure];
      }
    }

    method Finish(completed: bool)
      modifies this`terminalQueued, this`emitted, this`readerCompleted
      ensures View() == Finished(old(View()), completed)
    {
      readerCompleted := readerCompleted || completed;
      var first := TryQueueTerminal();
      if first {
        var result := collector.BuildResult(readerCompleted);
        emitted := emitted + [WithResult(result)];
      }
    }

    method CompleteRow()
      requires Valid()
      modifies collector
      ensures Valid() && View() == RowCompleted(collector.limits, old(View()))
      ensures collector.currentRow == null && collector.currentRowObserved == null
    {
      collector.CompleteRow();
    }

    method BeginRow(fields: seq<string>)
      requires Valid()
      modifies this`log, this`offered, collector
      ensures Valid() && View() == RowBegun(collector.limits, old(View()), fields)
    {
      offered := Offered(View(), fields);
      collector.BeginRow(fields);
      if !terminalQueued {
        log := log + [Unread(|collector.columns|)];
      }
    }

    /** Takes the inner reader's answer: another row, the end of the rows, or its error. */
    method Advance(answer: Answer, fields: seq<string>) returns (hasRow: bool)
      requires Valid()
      modifies this, collector
      ensures Valid() && View() == Advanced(collector.limits, old(View()), answer, fields)
      ensures hasRow == answer.Row?
    {
      hasRow := answer.Row?;
      match answer
      case Row => BeginRow(fields);
      case End =>
        if !terminalQueued {
          ended := true;
        }
        Finish(true);
      case Error => Fail();
    }

    method Read(answer: Answer, fields: seq<string>) returns (hasRow: bool)
      requires Valid()
      modifies this, collector
      ensures Valid() && View() == AfterCall(collector.limits, old(View()), Call.Read(answer, fields))
      ensures hasRow == answer.Row?
    {
      CompleteRow();
      offered := Offered(View(), fields);
      collector.CaptureSchema(fields);
      hasRow := Advance(answer, fields);
    }

    method MoveNext(answer: Answer, fields: seq<string>) returns (hasRow: bool)
      requires Valid()
      modifies this, collector
      ensures Valid() && View() == AfterCall(collector.limits, old(View()), Call.MoveNext(answer, fields))
      ensures hasRow == answer.Row?
    {
      CompleteRow();
      hasRow := Advance(answer, fields);
    }

    /** An observing getter: the value the application reads is the value the collector keeps. */
    method Observe(ordinal: int, value: DbValue) returns (read: DbValue)
      requires Valid()
      modifies this`log, collector.currentRow, collector.currentRowObserved
      ensures Valid() && View() == AfterCall(collector.limits, old(View()), GetCell(ordinal, value))
      ensures read == value
    {
      log := Logged(View(), ordinal, value);
      collector.CaptureCell(ordinal, value);
      read := value;
    }

    method NextResult(throws: bool)
      requires Valid()
      modifies this, collector
      ensures Valid() && View() == AfterCall(collector.limits, old(View()), Call.NextResult(throws))
    {
      CompleteRow();
      if throws {
        Fail();
      } else {
        Finish(readerCompleted);
      }
    }

    method Close(throws: bool)
      requires Valid()
      modifies this, collector
      ensures Valid() && View() == AfterCall(collector.limits, old(View()), Call.Close(throws))
    {
      CompleteRow();
      if !throws {
        Finish(readerCompleted);
      }
    }

    method DisposeReader(throws: bool)
      requires Valid()
      modifies this, collector
      ensures Valid() && View() == AfterCall(collector.limits, old(View()), Dispose(throws))
    {
      CompleteRow();
      if !throws {
        Finish(readerCompleted);
      }
    }
  }
}
