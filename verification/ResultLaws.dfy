/** What a captured result shows of the rows an application read, cell by cell, and exactly when it is whole. */
module ResultLaws {
  import opened Wrappers
  import opened ResultCapture

  // ---- one cell

  /** A limit on one value: at least one unit, at most what an array can index. */
  function Allowance(limit: nat): nat {
    if limit == 0 then 1 else if limit > 2_147_483_647 then 2_147_483_647 else limit
  }

  /** The value is longer than a cell may be; text counts four bytes a character. */
  predicate Longer(value: DbValue, limit: nat) {
    match value
    case Null => false
    case Scalar(_) => false
    case Text(text) => |text| > Allowance(limit / 4)
    case Binary(bytes) => |bytes| > Allowance(limit)
  }

  /** The value as a cell shows it: whole, or its beginning with its full length. */
  function Shown(value: DbValue, limit: nat): Node {
    match value
    case Null => NullNode
    case Scalar(json) => ScalarNode(json)
    case Text(text) =>
      if Longer(value, limit) then CutText(text[..Allowance(limit / 4)], |text|) else TextNode(text)
    case Binary(bytes) =>
      if Longer(value, limit) then BinaryNode(bytes[..Allowance(limit)], |bytes|, true)
      else BinaryNode(bytes, |bytes|, false)
  }

  /** A cell is cut exactly when its value is longer than allowed, and then shows its beginning. */
  lemma CellExactly(value: DbValue, limit: nat)
    ensures ValueNode(value, limit) == CapturedCell(Shown(value, limit), Longer(value, limit))
  {
    if value.Binary? {
      assert value.bytes[..|value.bytes|] == value.bytes;
    }
  }

  // ---- one row

  /** What the entry of a column says, after `before` bytes were counted. */
  predicate EntryTells(limits: Limits, before: nat, read: Option<DbValue>, entry: Entry) {
    match read
    case None => entry == NotRead
    case Some(value) =>
      var node := Shown(value, limits.maximumCellBytes);
      entry == if before + limits.measure(node) > limits.maximumBytes then TooLarge else Stored(node)
  }

  ghost predicate RowTells(limits: Limits, before: nat, read: seq<Option<DbValue>>, row: seq<Entry>) {
    && |row| == |read|
    && forall j :: 0 <= j < |row| ==> EntryTells(limits, before + RowBytes(limits, row[..j]), read[j], row[j])
  }

  /** The entry does not show its value whole. */
  predicate Spoiled(limits: Limits, read: Option<DbValue>, entry: Entry) {
    read.Some? && (Longer(read.value, limits.maximumCellBytes) || entry.TooLarge?)
  }

  ghost predicate RowSpoiled(limits: Limits, read: seq<Option<DbValue>>, row: seq<Entry>) {
    exists j :: 0 <= j < |read| && j < |row| && Spoiled(limits, read[j], row[j])
  }

  lemma RowTellsMore(limits: Limits, bytes: nat, read: seq<Option<DbValue>>, front: seq<Entry>, last: Option<DbValue>,
                     entry: Entry)
    requires RowTells(limits, bytes, read, front) && EntryTells(limits, bytes + RowBytes(limits, front), last, entry)
    ensures RowTells(limits, bytes, read + [last], front + [entry])
  {
    hide EntryTells, RowBytes;
    var row, all := front + [entry], read + [last];
    forall j | 0 <= j < |row| ensures EntryTells(limits, bytes + RowBytes(limits, row[..j]), all[j], row[j]) {
      assert row[..j] == front[..j];
      if j < |front| {
        assert EntryTells(limits, bytes + RowBytes(limits, front[..j]), read[j], front[j]);
      } else {
        assert front[..j] == front;
      }
    }
  }

  lemma RowSpoiledMore(limits: Limits, read: seq<Option<DbValue>>, front: seq<Entry>, last: Option<DbValue>,
                       entry: Entry)
    requires |front| == |read|
    ensures RowSpoiled(limits, read + [last], front + [entry]) <==>
      RowSpoiled(limits, read, front) || Spoiled(limits, last, entry)
  {
    hide Spoiled;
    var row, all := front + [entry], read + [last];
    assert row[|front|] == entry && all[|front|] == last;
    assert forall j :: 0 <= j < |front| ==> row[j] == front[j] && all[j] == read[j];
  }

  lemma BytesMore(limits: Limits, front: seq<Entry>, entry: Entry)
    ensures RowBytes(limits, front + [entry]) == RowBytes(limits, front)
      + (if entry.Stored? then limits.measure(entry.node) else 0)
  {
    assert (front + [entry])[..|front|] == front;
  }

  lemma {:induction false} PackTells(limits: Limits, cells: seq<Option<CapturedCell>>, bytes: nat, truncated: bool,
                                     read: seq<Option<DbValue>>)
    requires Holds(limits, cells, read)
    ensures var packed := Pack(limits, cells, bytes, truncated);
      && RowTells(limits, bytes, read, packed.row)
      && packed.bytes == bytes + RowBytes(limits, packed.row)
      && (packed.truncated <==> truncated || RowSpoiled(limits, read, packed.row))
  {
    hide ValueNode, Shown, Longer, RowTells, RowSpoiled, RowBytes;
    if cells == [] {
      NothingPacked(limits, bytes);
    } else {
      var n := |cells| - 1;
      PackTells(limits, cells[..n], bytes, truncated, read[..n]);
      if read[n].Some? {
        CellExactly(read[n].value, limits.maximumCellBytes);
      }
      var before, packed := Pack(limits, cells[..n], bytes, truncated), Pack(limits, cells, bytes, truncated);
      var entry := packed.row[|before.row|];
      assert packed.row == before.row + [entry] && read == read[..n] + [read[n]];
      RowLength(limits, bytes, read[..n], before.row);
      RowTellsMore(limits, bytes, read[..n], before.row, read[n], entry);
      RowSpoiledMore(limits, read[..n], before.row, read[n], entry);
      BytesMore(limits, before.row, entry);
    }
  }

  lemma NothingPacked(limits: Limits, bytes: nat)
    ensures RowTells(limits, bytes, [], []) && !RowSpoiled(limits, [], []) && RowBytes(limits, []) == 0
  {
  }

  lemma RowLength(limits: Limits, bytes: nat, read: seq<Option<DbValue>>, row: seq<Entry>)
    requires RowTells(limits, bytes, read, row)
    ensures |row| == |read|
  {
  }

  // ---- all rows

  /** Each captured row tells what was read from it, counting the bytes of the rows before. */
  ghost predicate RowsTell(limits: Limits, log: seq<seq<Option<DbValue>>>, rows: seq<seq<Entry>>) {
    && |rows| <= |log|
    && forall i :: 0 <= i < |rows| ==> RowTells(limits, StoredBytes(limits, rows[..i]), log[i], rows[i])
  }

  ghost predicate AnySpoiled(limits: Limits, log: seq<seq<Option<DbValue>>>, rows: seq<seq<Entry>>) {
    exists i :: 0 <= i < |rows| && i < |log| && RowSpoiled(limits, log[i], rows[i])
  }

  /** The rows begun before the one in progress. */
  function Closed(c: Collected, log: seq<seq<Option<DbValue>>>): int {
    |log| - if c.current.Some? then 1 else 0
  }

  /** The collector against the history: columns, rows, and exactly what counts as truncation. */
  ghost predicate Exact(limits: Limits, c: Collected, log: seq<seq<Option<DbValue>>>, offered: seq<string>) {
    && c.rowsObserved == |log| && 0 <= Closed(c, log)
    && (c.current.Some? ==> Holds(limits, c.current.value, log[|log| - 1]))
    && |c.rows| == (if Closed(c, log) <= limits.maximumRows then Closed(c, log) else limits.maximumRows)
    && RowsTell(limits, log, c.rows) && c.capturedBytes == StoredBytes(limits, c.rows)
    && c.columns == (if |offered| <= limits.maximumColumns then offered else offered[..limits.maximumColumns])
    && (!c.columnsCaptured ==> offered == [] && log == [] && !c.truncated)
    && (c.truncated <==>
          || |offered| > limits.maximumColumns || Closed(c, log) > limits.maximumRows
          || AnySpoiled(limits, log, c.rows))
  }

  lemma RowsGrow(limits: Limits, log: seq<seq<Option<DbValue>>>, rows: seq<seq<Entry>>, row: seq<Entry>)
    requires RowsTell(limits, log, rows) && |rows| < |log|
    requires RowTells(limits, StoredBytes(limits, rows), log[|rows|], row)
    ensures RowsTell(limits, log, rows + [row])
    ensures AnySpoiled(limits, log, rows + [row]) <==>
      AnySpoiled(limits, log, rows) || RowSpoiled(limits, log[|rows|], row)
    ensures StoredBytes(limits, rows + [row]) == StoredBytes(limits, rows) + RowBytes(limits, row)
  {
    hide RowTells, RowSpoiled, RowBytes;
    var more := rows + [row];
    assert more[..|rows|] == rows && more[|rows|] == row;
    forall i | 0 <= i < |more| ensures RowTells(limits, StoredBytes(limits, more[..i]), log[i], more[i]) {
      if i < |rows| {
        assert more[..i] == rows[..i] && more[i] == rows[i];
      }
    }
    assert forall i :: 0 <= i < |rows| ==> more[i] == rows[i];
  }

  lemma RowExact(limits: Limits, c: Collected, log: seq<seq<Option<DbValue>>>, offered: seq<string>)
    requires Exact(limits, c, log, offered)
    ensures Exact(limits, WithRow(limits, c), log, offered) && WithRow(limits, c).current.None?
  {
    hide RowTells, RowSpoiled, RowsTell, AnySpoiled, StoredBytes, Pack, Holds;
    if c.current.Some? && |c.rows| < limits.maximumRows {
      PackTells(limits, c.current.value, c.capturedBytes, c.truncated, log[|log| - 1]);
      assert |c.rows| == |log| - 1;
      RowsGrow(limits, log, c.rows, Pack(limits, c.current.value, c.capturedBytes, c.truncated).row);
    }
  }

  lemma NoneSpoiled(limits: Limits, log: seq<seq<Option<DbValue>>>)
    ensures RowsTell(limits, log, []) && !AnySpoiled(limits, log, []) && StoredBytes(limits, []) == 0
  {
  }

  lemma SchemaExact(limits: Limits, c: Collected, log: seq<seq<Option<DbValue>>>, offered: seq<string>,
                    fields: seq<string>)
    requires Exact(limits, c, log, offered)
    ensures Exact(limits, WithSchema(limits, c, fields), log, if c.columnsCaptured then offered else fields)
    ensures WithSchema(limits, c, fields).columnsCaptured && WithSchema(limits, c, fields).current == c.current
  {
    hide RowTells, RowSpoiled, RowsTell, AnySpoiled, StoredBytes, Holds;
    NoneSpoiled(limits, log);
  }

  /** A longer history with the same beginning says the same of the rows captured. */
  lemma SameRows(limits: Limits, log: seq<seq<Option<DbValue>>>, later: seq<seq<Option<DbValue>>>,
                 rows: seq<seq<Entry>>)
    requires |rows| <= |log| && |rows| <= |later| && forall i :: 0 <= i < |rows| ==> log[i] == later[i]
    ensures RowsTell(limits, log, rows) <==> RowsTell(limits, later, rows)
    ensures AnySpoiled(limits, log, rows) <==> AnySpoiled(limits, later, rows)
  {
    hide RowTells, RowSpoiled;
  }

  lemma BlankHolds(limits: Limits, n: nat)
    ensures Holds(limits, Blank(n), Unread(n))
  {
  }

  lemma BeginExact(limits: Limits, r: Reader, fields: seq<string>)
    requires !r.terminalQueued && Exact(limits, r.collected, r.log, r.offered) && r.collected.current.None?
    ensures var next := RowBegun(limits, r, fields); Exact(limits, next.collected, next.log, next.offered)
  {
    hide RowTells, RowSpoiled, RowsTell, AnySpoiled, StoredBytes, Holds, Blank, Unread, WithSchema;
    var shaped := WithSchema(limits, r.collected, fields);
    SchemaExact(limits, r.collected, r.log, r.offered, fields);
    var next := RowBegun(limits, r, fields);
    BlankHolds(limits, |shaped.columns|);
    SameRows(limits, r.log, next.log, shaped.rows);
  }

  lemma CellStaysExact(limits: Limits, r: Reader, ordinal: int, value: DbValue)
    requires !r.terminalQueued && Exact(limits, r.collected, r.log, r.offered)
    ensures Exact(limits, WithCell(limits, r.collected, ordinal, value), Logged(r, ordinal, value), r.offered)
  {
    hide RowTells, RowSpoiled, RowsTell, AnySpoiled, StoredBytes, ValueNode;
    SameRows(limits, r.log, Logged(r, ordinal, value), r.collected.rows);
  }

  // ---- the terminal

  /** What a terminal with a result says: columns, rows, and whether anything is missing. */
  ghost predicate TerminalExact(limits: Limits, terminal: Terminal, log: seq<seq<Option<DbValue>>>, ended: bool,
                                offered: seq<string>) {
    terminal.WithResult? ==>
      var result := terminal.result;
      && result.columns == (if |offered| <= limits.maximumColumns then offered else offered[..limits.maximumColumns])
      && result.rowsObserved == |log| && result.rowsCaptured == |result.rows|
      && |result.rows| == (if |log| <= limits.maximumRows then |log| else limits.maximumRows)
      && RowsTell(limits, log, result.rows) && StoredBytes(limits, result.rows) <= limits.maximumBytes
      && (result.truncated <==>
            || !ended || |offered| > limits.maximumColumns || |log| > limits.maximumRows
            || AnySpoiled(limits, log, result.rows))
  }

  ghost predicate ExactReader(limits: Limits, r: Reader) {
    && WithinLimits(limits, r.collected)
    && (!r.terminalQueued ==>
        r.emitted == [] && !r.readerCompleted && !r.ended && Exact(limits, r.collected, r.log, r.offered))
    && (r.terminalQueued ==> |r.emitted| == 1 && TerminalExact(limits, r.emitted[0], r.log, r.ended, r.offered))
  }

  lemma FinishExact(limits: Limits, r: Reader, readerCompleted: bool)
    requires ExactReader(limits, r) && (!r.terminalQueued ==> r.collected.current.None?)
    ensures ExactReader(limits, Finished(if r.terminalQueued then r else r.(ended := readerCompleted), readerCompleted))
  {
    hide RowsTell, AnySpoiled, StoredBytes;
    assert WithinLimits(limits, r.collected) ==>
      r.collected.capturedBytes == StoredBytes(limits, r.collected.rows) <= limits.maximumBytes;
    hide WithinLimits;
  }

  lemma FailExact(limits: Limits, r: Reader)
    requires ExactReader(limits, r)
    ensures ExactReader(limits, Emitted(r, WithFailure))
  {
    hide RowsTell, AnySpoiled, StoredBytes, WithinLimits, Exact;
  }

  lemma ReadyExact(limits: Limits, r: Reader)
    requires ExactReader(limits, r)
    ensures ExactReader(limits, RowCompleted(limits, r)) && RowCompleted(limits, r).collected.current.None?
  {
    hide WithinLimits, Exact, TerminalExact;
    RowKeepsLimits(limits, r.collected);
    if !r.terminalQueued {
      RowExact(limits, r.collected, r.log, r.offered);
    }
  }

  lemma TakenExact(limits: Limits, r: Reader, fields: seq<string>)
    requires ExactReader(limits, r) && r.collected.current.None?
    ensures ExactReader(limits, SchemaTaken(limits, r, fields))
      && SchemaTaken(limits, r, fields).collected.current.None?
  {
    hide WithinLimits, Exact, TerminalExact;
    SchemaKeepsLimits(limits, r.collected, fields);
    if !r.terminalQueued {
      SchemaExact(limits, r.collected, r.log, r.offered, fields);
    }
  }

  lemma AdvanceExact(limits: Limits, r: Reader, answer: Answer, fields: seq<string>)
    requires ExactReader(limits, r) && r.collected.current.None?
    ensures ExactReader(limits, Advanced(limits, r, answer, fields))
  {
    hide WithinLimits, Exact, TerminalExact, Finished, WithNewRow;
    match answer
    case Row =>
      NewRowKeepsLimits(limits, r.collected, fields);
      if !r.terminalQueued {
        BeginExact(limits, r, fields);
      }
    case End => FinishExact(limits, r, true);
    case Error => FailExact(limits, r);
  }

  lemma CloseExact(limits: Limits, r: Reader)
    requires ExactReader(limits, r) && r.collected.current.None?
    ensures ExactReader(limits, Finished(r, r.readerCompleted))
  {
    hide WithinLimits, Exact, TerminalExact, Finished;
    FinishExact(limits, r, r.readerCompleted);
    if !r.terminalQueued {
      assert r.(ended := r.readerCompleted) == r;
    }
  }

  lemma CallExact(limits: Limits, r: Reader, call: Call)
    requires ExactReader(limits, r)
    ensures ExactReader(limits, AfterCall(limits, r, call))
  {
    hide WithinLimits, Exact, TerminalExact, Finished, Advanced, RowCompleted, Emitted, WithCell, Logged, SchemaTaken;
    ReadyExact(limits, r);
    var ready := RowCompleted(limits, r);
    match call
    case Read(answer, fields) =>
      TakenExact(limits, ready, fields);
      AdvanceExact(limits, SchemaTaken(limits, ready, fields), answer, fields);
    case MoveNext(answer, fields) => AdvanceExact(limits, ready, answer, fields);
    case GetCell(ordinal, value) =>
      CellKeepsLimits(limits, r.collected, ordinal, value);
      if !r.terminalQueued {
        CellStaysExact(limits, r, ordinal, value);
      } else {
        LogClosed(r, ordinal, value);
      }
    case NextResult(throws) =>
      FailExact(limits, ready);
      CloseExact(limits, ready);
    case Close(throws) => CloseExact(limits, ready);
    case Dispose(throws) => CloseExact(limits, ready);
  }

  lemma {:induction false} RunExact(limits: Limits, calls: seq<Call>)
    ensures ExactReader(limits, Run(limits, OPENED, calls))
  {
    hide ExactReader, AfterCall;
    if calls != [] {
      RunExact(limits, calls[..|calls| - 1]);
      CallExact(limits, Run(limits, OPENED, calls[..|calls| - 1]), calls[|calls| - 1]);
    } else {
      OpenedExact(limits);
    }
  }

  lemma OpenedExact(limits: Limits)
    ensures ExactReader(limits, OPENED)
  {
    NoneSpoiled(limits, []);
  }

  // ---- exactly when a result is whole

  /** The bytes that all values read from a row would take. */
  function RowDemand(limits: Limits, read: seq<Option<DbValue>>): nat {
    if read == [] then 0 else RowDemand(limits, read[..|read| - 1]) + Wanted(limits, read[|read| - 1])
  }

  function Demand(limits: Limits, log: seq<seq<Option<DbValue>>>): nat {
    if log == [] then 0 else Demand(limits, log[..|log| - 1]) + RowDemand(limits, log[|log| - 1])
  }

  ghost predicate HasTooLarge(row: seq<Entry>) {
    exists j :: 0 <= j < |row| && row[j].TooLarge?
  }

  /** The bytes a value takes, and those its entry counts. */
  function Wanted(limits: Limits, read: Option<DbValue>): nat {
    if read.Some? then limits.measure(Shown(read.value, limits.maximumCellBytes)) else 0
  }

  function Counted(limits: Limits, entry: Entry): nat {
    if entry.Stored? then limits.measure(entry.node) else 0
  }

  lemma EntryDemand(limits: Limits, before: nat, read: Option<DbValue>, entry: Entry)
    requires EntryTells(limits, before, read, entry)
    ensures Counted(limits, entry) == if entry.TooLarge? then 0 else Wanted(limits, read)
    ensures entry.TooLarge? ==> before + Wanted(limits, read) > limits.maximumBytes
  {
    hide Shown;
  }

  lemma {:induction false} RowDemandIs(limits: Limits, before: nat, read: seq<Option<DbValue>>, row: seq<Entry>)
    requires RowTells(limits, before, read, row)
    ensures RowBytes(limits, row) <= RowDemand(limits, read)
    ensures !HasTooLarge(row) ==> RowBytes(limits, row) == RowDemand(limits, read)
    ensures HasTooLarge(row) ==> before + RowDemand(limits, read) > limits.maximumBytes
  {
    if row != [] {
      var n := |row| - 1;
      RowTellsLess(limits, before, read, row);
      RowDemandIs(limits, before, read[..n], row[..n]);
      assert EntryTells(limits, before + RowBytes(limits, row[..n]), read[n], row[n]);
      EntryDemand(limits, before + RowBytes(limits, row[..n]), read[n], row[n]);
      LastTooLarge(row);
      assert RowBytes(limits, row) == RowBytes(limits, row[..n]) + Counted(limits, row[n]);
      assert RowDemand(limits, read) == RowDemand(limits, read[..n]) + Wanted(limits, read[n]);
      hide RowTells, HasTooLarge, RowBytes, RowDemand, EntryTells, Shown, Wanted, Counted;
    }
  }

  lemma RowTellsLess(limits: Limits, before: nat, read: seq<Option<DbValue>>, row: seq<Entry>)
    requires row != [] && RowTells(limits, before, read, row)
    ensures RowTells(limits, before, read[..|row| - 1], row[..|row| - 1])
  {
    hide EntryTells, RowBytes;
    var n := |row| - 1;
    assert forall j :: 0 <= j < n ==> row[..n][..j] == row[..j];
  }

  lemma LastTooLarge(row: seq<Entry>)
    requires row != []
    ensures HasTooLarge(row) <==> HasTooLarge(row[..|row| - 1]) || row[|row| - 1].TooLarge?
  {
  }

  ghost predicate AnyTooLarge(rows: seq<seq<Entry>>) {
    exists i :: 0 <= i < |rows| && HasTooLarge(rows[i])
  }

  lemma {:induction false} DemandIs(limits: Limits, log: seq<seq<Option<DbValue>>>, rows: seq<seq<Entry>>)
    requires RowsTell(limits, log, rows) && |rows| == |log|
    ensures StoredBytes(limits, rows) <= Demand(limits, log)
    ensures !AnyTooLarge(rows) ==> StoredBytes(limits, rows) == Demand(limits, log)
    ensures AnyTooLarge(rows) ==> Demand(limits, log) > limits.maximumBytes
  {
    hide RowTells, HasTooLarge, RowBytes, RowDemand;
    if rows != [] {
      var n := |rows| - 1;
      assert forall i :: 0 <= i < n ==> rows[..n][..i] == rows[..i];
      DemandIs(limits, log[..n], rows[..n]);
      RowDemandIs(limits, StoredBytes(limits, rows[..n]), log[n], rows[n]);
      assert forall i :: 0 <= i < n ==> rows[..n][i] == rows[i];
    }
  }

  /** No value read last in any column is longer than a cell may be. */
  ghost predicate NoneLonger(limits: Limits, log: seq<seq<Option<DbValue>>>) {
    forall i, j :: 0 <= i < |log| && 0 <= j < |log[i]| && log[i][j].Some? ==>
      !Longer(log[i][j].value, limits.maximumCellBytes)
  }

  lemma SpoiledIff(limits: Limits, log: seq<seq<Option<DbValue>>>, rows: seq<seq<Entry>>)
    requires RowsTell(limits, log, rows) && |rows| == |log|
    ensures AnySpoiled(limits, log, rows) <==> !NoneLonger(limits, log) || AnyTooLarge(rows)
  {
    hide Longer, RowBytes, Shown;
    forall i | 0 <= i < |rows|
      ensures |rows[i]| == |log[i]| && forall j :: 0 <= j < |rows[i]| && rows[i][j].TooLarge? ==> log[i][j].Some?
    {
      assert RowTells(limits, StoredBytes(limits, rows[..i]), log[i], rows[i]);
      forall j | 0 <= j < |rows[i]| && rows[i][j].TooLarge? ensures log[i][j].Some? {
        assert EntryTells(limits, StoredBytes(limits, rows[..i]) + RowBytes(limits, rows[i][..j]), log[i][j],
                          rows[i][j]);
      }
    }
    hide RowTells, RowsTell, EntryTells;
    if !NoneLonger(limits, log) {
      var i, j :| 0 <= i < |log| && 0 <= j < |log[i]| && log[i][j].Some?
                  && Longer(log[i][j].value, limits.maximumCellBytes);
      assert RowSpoiled(limits, log[i], rows[i]) by { assert Spoiled(limits, log[i][j], rows[i][j]); }
    }
    if AnyTooLarge(rows) {
      var i :| 0 <= i < |rows| && HasTooLarge(rows[i]);
      var j :| 0 <= j < |rows[i]| && rows[i][j].TooLarge?;
      assert RowSpoiled(limits, log[i], rows[i]) by { assert Spoiled(limits, log[i][j], rows[i][j]); }
    }
  }

  /**
   Exactly when a result is whole. Over every sequence of reader calls, the result sent is not truncated if
   and only if the reader ran out of rows, its fields and rows were within their limits, no value read last
   was longer than a cell may be, and all values read take no more than the bytes allowed.
   */
  lemma WholeIff(limits: Limits, calls: seq<Call>)
    ensures var r := Run(limits, OPENED, calls);
      r.terminalQueued ==> |r.emitted| == 1 && TerminalExact(limits, r.emitted[0], r.log, r.ended, r.offered)
    ensures var r := Run(limits, OPENED, calls);
      r.terminalQueued && r.emitted[0].WithResult? ==>
        (!r.emitted[0].result.truncated <==>
           r.ended && |r.offered| <= limits.maximumColumns && |r.log| <= limits.maximumRows
           && NoneLonger(limits, r.log) && Demand(limits, r.log) <= limits.maximumBytes)
  {
    hide WithinLimits, Exact, Run, RowsTell, AnySpoiled, NoneLonger, Demand, StoredBytes, AnyTooLarge;
    RunExact(limits, calls);
    var r := Run(limits, OPENED, calls);
    if r.terminalQueued && r.emitted[0].WithResult? && |r.log| <= limits.maximumRows {
      SpoiledIff(limits, r.log, r.emitted[0].result.rows);
      DemandIs(limits, r.log, r.emitted[0].result.rows);
    }
  }

  // ---- which call sends the terminal

  /** The call ends the capture: the rows run out or fail, a further result set, or an orderly close. */
  predicate Ending(call: Call) {
    match call
    case Read(answer, _) => !answer.Row?
    case MoveNext(answer, _) => !answer.Row?
    case GetCell(_, _) => false
    case NextResult(_) => true
    case Close(throws) => !throws
    case Dispose(throws) => !throws
  }

  /** The inner reader failed. */
  predicate Failing(call: Call) {
    match call
    case Read(answer, _) => answer.Error?
    case MoveNext(answer, _) => answer.Error?
    case NextResult(throws) => throws
    case _ => false
  }

  predicate RunsOut(call: Call) {
    (call.Read? || call.MoveNext?) && call.answer.End?
  }

  /** One call: the first ending one sends the terminal, and once it is sent neither it nor the history changes. */
  lemma CallSends(limits: Limits, r: Reader, call: Call)
    requires !r.terminalQueued ==> !r.ended && !r.readerCompleted
    ensures var next := AfterCall(limits, r, call);
      && next.terminalQueued == (r.terminalQueued || Ending(call))
      && (r.terminalQueued ==>
            next.emitted == r.emitted && next.ended == r.ended && next.log == r.log && next.offered == r.offered)
      && (!r.terminalQueued && !Ending(call) ==> next.emitted == r.emitted && !next.ended && !next.readerCompleted)
      && (!r.terminalQueued && Ending(call) ==>
            && next.ended == RunsOut(call) && |next.emitted| == |r.emitted| + 1
            && (next.emitted[|r.emitted|].WithFailure? <==> Failing(call)))
  {
    hide WithRow, WithSchema, WithNewRow, WithCell, Build;
  }

  ghost predicate FirstEnding(calls: seq<Call>, i: nat) {
    i < |calls| && Ending(calls[i]) && forall j :: 0 <= j < i ==> !Ending(calls[j])
  }

  /** The first ending call of a run sends its one terminal, a failure if it failed and else a result. */
  lemma {:induction false} FirstEndingSends(limits: Limits, calls: seq<Call>)
    ensures var r := Run(limits, OPENED, calls);
      && (r.terminalQueued <==> exists i: nat :: FirstEnding(calls, i))
      && (!r.terminalQueued ==> r.emitted == [] && !r.ended && !r.readerCompleted)
      && (forall i: nat :: FirstEnding(calls, i) ==>
            && |r.emitted| == 1 && (r.emitted[0].WithFailure? <==> Failing(calls[i]))
               && (r.ended <==> RunsOut(calls[i])))
  {
    hide AfterCall, Ending, Failing, RunsOut;
    if calls != [] {
      var n := |calls| - 1;
      FirstEndingSends(limits, calls[..n]);
      CallSends(limits, Run(limits, OPENED, calls[..n]), calls[n]);
      FirstEndingGrows(calls);
    }
  }

  lemma FirstEndingGrows(calls: seq<Call>)
    requires calls != []
    ensures var n := |calls| - 1;
      && (forall i: nat :: i < n ==> (FirstEnding(calls, i) <==> FirstEnding(calls[..n], i)))
      && (FirstEnding(calls, n) <==> Ending(calls[n]) && !exists i: nat :: FirstEnding(calls[..n], i))
  {
    hide Ending;
    var n := |calls| - 1;
    assert forall i :: 0 <= i < n ==> calls[..n][i] == calls[i];
    if !FirstEnding(calls, n) && Ending(calls[n]) {
      var i := SomeFirst(calls[..n]);
    }
  }

  lemma SomeFirst(calls: seq<Call>) returns (i: nat)
    requires exists j :: 0 <= j < |calls| && Ending(calls[j])
    ensures FirstEnding(calls, i)
  {
    hide Ending;
    i := 0;
    while !Ending(calls[i])
      invariant i < |calls| && forall j :: 0 <= j < i ==> !Ending(calls[j])
      decreases |calls| - i
    {
      i := i + 1;
    }
  }
}
