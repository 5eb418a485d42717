/**
 What a database reader leaves behind: the rows the application read, cell by cell, within limits, and
 one terminal that says whether anything is missing.
 */
module ResultCapture {
  import opened Wrappers
  import opened BodyObservation

  const INT_MAX: nat := 0x7FFF_FFFF

  datatype DbValue = Null | Text(text: string) | Binary(bytes: Bytes) | Scalar(json: string)

  datatype Node =
    | NullNode
    | TextNode(text: string)
    | ScalarNode(json: string)
    | CutText(text: string, observedCharacterLength: nat)
    | BinaryNode(bytes: Bytes, observedByteLength: nat, cut: bool)

  datatype CapturedCell = CapturedCell(node: Node, truncated: bool)

  datatype Entry = Stored(node: Node) | NotRead | TooLarge

  /** `measure` is the encoded length of a cell. */
  datatype Limits = Limits(maximumBytes: nat, maximumRows: nat, maximumCellBytes: nat, maximumColumns: nat,
                           measure: Node -> nat)

  function Min(a: nat, b: nat): nat {
    if a <= b then a else b
  }

  /** How much of a value is kept: at least one unit, at most what the limit allows. */
  function CaptureLength(length: nat, limit: nat): nat {
    var allowed := Min(limit, INT_MAX);
    Min(length, if allowed < 1 then 1 else allowed)
  }

  function ValueNode(value: DbValue, maximumCellBytes: nat): CapturedCell {
    match value
    case Null => CapturedCell(NullNode, false)
    case Scalar(json) => CapturedCell(ScalarNode(json), false)
    case Text(text) =>
      var kept := CaptureLength(|text|, maximumCellBytes / 4);
      if |text| > kept then CapturedCell(CutText(text[..kept], |text|), true) else CapturedCell(TextNode(text), false)
    case Binary(bytes) =>
      var kept := CaptureLength(|bytes|, maximumCellBytes);
      CapturedCell(BinaryNode(bytes[..kept], |bytes|, kept < |bytes|), kept < |bytes|)
  }

  /** The value a node stands for, when nothing was cut from it. */
  function Value(node: Node): Option<DbValue> {
    match node
    case NullNode => Some(Null)
    case TextNode(text) => Some(Text(text))
    case ScalarNode(json) => Some(Scalar(json))
    case CutText(_, _) => None
    case BinaryNode(bytes, _, cut) => if cut then None else Some(Binary(bytes))
  }

  /** A cell that does not say it was cut holds its value whole; one that does holds a proper part of it. */
  lemma CellIsWholeOrCut(value: DbValue, maximumCellBytes: nat)
    ensures var cell := ValueNode(value, maximumCellBytes);
      Value(cell.node) == if cell.truncated then None else Some(value)
  {
    if value.Binary? {
      assert value.bytes[..|value.bytes|] == value.bytes;
    }
  }

  // ---- collector

  datatype Collected = Collected(
    columns: seq<string>,
    rows: seq<seq<Entry>>,
    capturedBytes: nat,
    rowsObserved: nat,
    columnsCaptured: bool,
    truncated: bool,
    current: Option<seq<Option<CapturedCell>>>)

  const NOTHING := Collected([], [], 0, 0, false, false, None)

  function WithSchema(limits: Limits, c: Collected, fields: seq<string>): Collected {
    if c.columnsCaptured then c
    else c.(columns := c.columns + fields[..Min(|fields|, limits.maximumColumns)],
            truncated := |fields| > limits.maximumColumns,
            columnsCaptured := true)
  }

  datatype Packed = Packed(row: seq<Entry>, bytes: nat, truncated: bool)

  /** The first cells of a row, each stored if it was read and still fits. */
  function Pack(limits: Limits, cells: seq<Option<CapturedCell>>, bytes: nat, truncated: bool): Packed {
    if cells == [] then Packed([], bytes, truncated)
    else
      var before := Pack(limits, cells[..|cells| - 1], bytes, truncated);
      match cells[|cells| - 1]
      case None => before.(row := before.row + [NotRead])
      case Some(cell) =>
        var length := limits.measure(cell.node);
        if before.bytes + length > limits.maximumBytes then before.(row := before.row + [TooLarge], truncated := true)
        else Packed(before.row + [Stored(cell.node)], before.bytes + length, before.truncated || cell.truncated)
  }

  function WithRow(limits: Limits, c: Collected): Collected {
    if c.current.None? then c
    else if |c.rows| >= limits.maximumRows then c.(truncated := true, current := None)
    else
      var packed := Pack(limits, c.current.value, c.capturedBytes, c.truncated);
      c.(rows := c.rows + [packed.row], capturedBytes := packed.bytes, truncated := packed.truncated, current := None)
  }

  function Blank(n: nat): seq<Option<CapturedCell>> {
    seq(n, i requires 0 <= i < n => None)
  }

  function WithNewRow(limits: Limits, c: Collected, fields: seq<string>): Collected {
    var ready := WithRow(limits, WithSchema(limits, c, fields));
    ready.(rowsObserved := ready.rowsObserved + 1, current := Some(Blank(|ready.columns|)))
  }

  function WithCell(limits: Limits, c: Collected, ordinal: int, value: DbValue): Collected {
    if c.current.None? || ordinal < 0 || ordinal >= |c.current.value| then c
    else c.(current := Some(c.current.value[ordinal := Some(ValueNode(value, limits.maximumCellBytes))]))
  }

  datatype ResultSet = ResultSet(columns: seq<string>, rows: seq<seq<Entry>>, rowsObserved: nat, rowsCaptured: nat,
                                 truncated: bool)

  function Build(c: Collected, readerCompleted: bool): ResultSet {
    ResultSet(c.columns, c.rows, c.rowsObserved, |c.rows|, c.truncated || !readerCompleted)
  }

  // ---- reader

  datatype Terminal = WithResult(result: ResultSet) | WithFailure

  /** What the inner reader answers to a step: a row with these fields, no further row, or an error. */
  datatype Answer = Row | End | Error

  datatype Call =
    | Read(answer: Answer, fields: seq<string>)
    | MoveNext(answer: Answer, fields: seq<string>)
    | GetCell(ordinal: int, value: DbValue)
    | NextResult(throws: bool)
    | Close(throws: bool)
    | Dispose(throws: bool)

  /**
   The reader's state. `log` is history: for each row read before the terminal, the last value the
   application read in each captured column; `ended` says the inner reader ran out of rows by then, and
   `offered` which fields it had when its columns were captured.
   */
  datatype Reader = Reader(collected: Collected, readerCompleted: bool, terminalQueued: bool, emitted: seq<Terminal>,
                           log: seq<seq<Option<DbValue>>>, ended: bool, offered: seq<string>)

  const OPENED := Reader(NOTHING, false, false, [], [], false, [])

  function Emitted(r: Reader, terminal: Terminal): Reader {
    if r.terminalQueued then r else r.(terminalQueued := true, emitted := r.emitted + [terminal])
  }

  function Finished(r: Reader, readerCompleted: bool): Reader {
    var completed := r.readerCompleted || readerCompleted;
    Emitted(r.(readerCompleted := completed), WithResult(Build(r.collected, completed)))
  }

  function RowCompleted(limits: Limits, r: Reader): Reader {
    r.(collected := WithRow(limits, r.collected))
  }

  function RowBegun(limits: Limits, r: Reader, fields: seq<string>): Reader {
    var next := WithNewRow(limits, r.collected, fields);
    r.(collected := next, offered := Offered(r, fields),
       log := if r.terminalQueued then r.log else r.log + [Unread(|next.columns|)])
  }

  /** The columns are captured from the first fields seen, and noted until the terminal. */
  function SchemaTaken(limits: Limits, r: Reader, fields: seq<string>): Reader {
    r.(collected := WithSchema(limits, r.collected, fields), offered := Offered(r, fields))
  }

  function Offered(r: Reader, fields: seq<string>): seq<string> {
    if r.terminalQueued || r.collected.columnsCaptured then r.offered else fields
  }

  function Unread(n: nat): seq<Option<DbValue>> {
    seq(n, i requires 0 <= i < n => None)
  }

  function Logged(r: Reader, ordinal: int, value: DbValue): seq<seq<Option<DbValue>>> {
    if r.terminalQueued || r.collected.current.None? || r.log == [] || ordinal < 0 || ordinal >= |r.log[|r.log| - 1]|
      then r.log
    else r.log[|r.log| - 1 := r.log[|r.log| - 1][ordinal := Some(value)]]
  }

  function Advanced(limits: Limits, r: Reader, answer: Answer, fields: seq<string>): Reader {
    match answer
    case Row => RowBegun(limits, r, fields)
    case End => Finished(if r.terminalQueued then r else r.(ended := true), true)
    case Error => Emitted(r, WithFailure)
  }

  function AfterCall(limits: Limits, r: Reader, call: Call): Reader {
    match call
    case Read(answer, fields) =>
      Advanced(limits, SchemaTaken(limits, RowCompleted(limits, r), fields), answer, fields)
    case MoveNext(answer, fields) => Advanced(limits, RowCompleted(limits, r), answer, fields)
    case GetCell(ordinal, value) =>
      r.(collected := WithCell(limits, r.collected, ordinal, value), log := Logged(r, ordinal, value))
    case NextResult(throws) =>
      var ready := RowCompleted(limits, r);
      if throws then Emitted(ready, WithFailure) else Finished(ready, ready.readerCompleted)
    case Close(throws) =>
      var ready := RowCompleted(limits, r);
      if throws then ready else Finished(ready, ready.readerCompleted)
    case Dispose(throws) =>
      var ready := RowCompleted(limits, r);
      if throws then ready else Finished(ready, ready.readerCompleted)
  }

  function Run(limits: Limits, r: Reader, calls: seq<Call>): Reader {
    if calls == [] then r else AfterCall(limits, Run(limits, r, calls[..|calls| - 1]), calls[|calls| - 1])
  }

  // ---- limits

  function RowBytes(limits: Limits, row: seq<Entry>): nat {
    if row == [] then 0
    else RowBytes(limits, row[..|row| - 1]) + if row[|row| - 1].Stored? then limits.measure(row[|row| - 1].node) else 0
  }

  function StoredBytes(limits: Limits, rows: seq<seq<Entry>>): nat {
    if rows == [] then 0 else StoredBytes(limits, rows[..|rows| - 1]) + RowBytes(limits, rows[|rows| - 1])
  }

  /** Rows, columns and counted bytes are within the limits, and every row has one cell per column. */
  ghost predicate WithinLimits(limits: Limits, c: Collected) {
    && |c.rows| <= limits.maximumRows
    && |c.columns| <= limits.maximumColumns
    && c.capturedBytes == StoredBytes(limits, c.rows) <= limits.maximumBytes
    && (forall row :: row in c.rows ==> |row| == |c.columns|)
    && (c.current.Some? ==> |c.current.value| == |c.columns|)
    && (!c.columnsCaptured ==> c.columns == [] && c.rows == [] && c.current.None? && !c.truncated)
  }

  lemma {:induction false} PackWithin(limits: Limits, cells: seq<Option<CapturedCell>>, bytes: nat, truncated: bool)
    requires bytes <= limits.maximumBytes
    ensures var packed := Pack(limits, cells, bytes, truncated);
      && |packed.row| == |cells|
      && packed.bytes == bytes + RowBytes(limits, packed.row) <= limits.maximumBytes
      && (truncated ==> packed.truncated)
  {
    if cells != [] {
      PackWithin(limits, cells[..|cells| - 1], bytes, truncated);
      var before := Pack(limits, cells[..|cells| - 1], bytes, truncated);
      var packed := Pack(limits, cells, bytes, truncated);
      assert packed.row[..|packed.row| - 1] == before.row;
    }
  }

  lemma RowKeepsLimits(limits: Limits, c: Collected)
    requires WithinLimits(limits, c)
    ensures WithinLimits(limits, WithRow(limits, c))
  {
    if c.current.Some? && |c.rows| < limits.maximumRows {
      PackWithin(limits, c.current.value, c.capturedBytes, c.truncated);
      var next := WithRow(limits, c);
      assert next.rows[..|c.rows|] == c.rows;
    }
  }

  lemma SchemaKeepsLimits(limits: Limits, c: Collected, fields: seq<string>)
    requires WithinLimits(limits, c)
    ensures WithinLimits(limits, WithSchema(limits, c, fields))
    ensures WithSchema(limits, c, fields).columnsCaptured
  {
  }

  lemma CallKeepsLimits(limits: Limits, r: Reader, call: Call)
    requires WithinLimits(limits, r.collected)
    ensures WithinLimits(limits, AfterCall(limits, r, call).collected)
  {
    hide WithinLimits, WithRow, WithSchema, WithNewRow, WithCell, Build;
    RowKeepsLimits(limits, r.collected);
    var ready := WithRow(limits, r.collected);
    match call
    case Read(_, fields) =>
      SchemaKeepsLimits(limits, ready, fields);
      NewRowKeepsLimits(limits, WithSchema(limits, ready, fields), fields);
    case MoveNext(_, fields) => NewRowKeepsLimits(limits, ready, fields);
    case GetCell(ordinal, value) => CellKeepsLimits(limits, r.collected, ordinal, value);
    case _ =>
  }

  lemma NewRowKeepsLimits(limits: Limits, c: Collected, fields: seq<string>)
    requires WithinLimits(limits, c)
    ensures WithinLimits(limits, WithNewRow(limits, c, fields))
  {
    SchemaKeepsLimits(limits, c, fields);
    RowKeepsLimits(limits, WithSchema(limits, c, fields));
  }

  lemma CellKeepsLimits(limits: Limits, c: Collected, ordinal: int, value: DbValue)
    requires WithinLimits(limits, c)
    ensures WithinLimits(limits, WithCell(limits, c, ordinal, value))
  {
  }

  lemma {:induction false} RunKeepsLimits(limits: Limits, calls: seq<Call>)
    ensures WithinLimits(limits, Run(limits, OPENED, calls).collected)
  {
    hide WithinLimits, AfterCall;
    if calls != [] {
      RunKeepsLimits(limits, calls[..|calls| - 1]);
      CallKeepsLimits(limits, Run(limits, OPENED, calls[..|calls| - 1]), calls[|calls| - 1]);
    } else {
      assert WithinLimits(limits, NOTHING) by { NothingWithin(limits); }
    }
  }

  lemma NothingWithin(limits: Limits)
    ensures WithinLimits(limits, NOTHING)
  {
  }

  // ---- fidelity

  /** The entry of a column: not read, or the last value read, whole. */
  predicate Shows(entry: Entry, read: Option<DbValue>) {
    match read
    case None => entry == NotRead
    case Some(value) => entry.Stored? && Value(entry.node) == Some(value)
  }

  predicate RowShows(row: seq<Entry>, read: seq<Option<DbValue>>) {
    |row| == |read| && forall i :: 0 <= i < |row| ==> Shows(row[i], read[i])
  }

  /** The cells of the row in progress are those of the last values read. */
  predicate Holds(limits: Limits, cells: seq<Option<CapturedCell>>, read: seq<Option<DbValue>>) {
    && |cells| == |read|
    && forall i :: 0 <= i < |cells| ==>
         cells[i] == match read[i] case None => None case Some(value) => Some(ValueNode(value, limits.maximumCellBytes))
  }

  /** As long as nothing was truncated, every finished row shows what was read from it. */
  ghost predicate Faithful(limits: Limits, c: Collected, log: seq<seq<Option<DbValue>>>) {
    && |log| == c.rowsObserved
    && (forall i :: 0 <= i < |log| ==> |log[i]| == |c.columns|)
    && (!c.columnsCaptured ==> log == [])
    && (c.current.Some? ==> log != [] && Holds(limits, c.current.value, log[|log| - 1]))
    && (!c.truncated ==>
          && |c.rows| == |log| - (if c.current.Some? then 1 else 0)
          && forall i :: 0 <= i < |c.rows| ==> RowShows(c.rows[i], log[i]))
  }

  /** A terminal that does not report truncation reports every row, every read value, up to the reader's end. */
  ghost predicate Truthful(terminal: Terminal, log: seq<seq<Option<DbValue>>>, ended: bool) {
    terminal.WithResult? && !terminal.result.truncated ==>
      && ended
      && terminal.result.rowsCaptured == terminal.result.rowsObserved == |terminal.result.rows| == |log|
      && forall i :: 0 <= i < |log| ==> RowShows(terminal.result.rows[i], log[i])
  }

  ghost predicate Honest(limits: Limits, r: Reader) {
    && WithinLimits(limits, r.collected)
    && (!r.terminalQueued ==> r.emitted == [] && !r.readerCompleted && Faithful(limits, r.collected, r.log))
    && (r.terminalQueued ==> |r.emitted| == 1 && Truthful(r.emitted[0], r.log, r.ended))
  }

  lemma {:induction false} PackShows(limits: Limits, cells: seq<Option<CapturedCell>>, bytes: nat, truncated: bool,
                                     read: seq<Option<DbValue>>)
    requires Holds(limits, cells, read)
    ensures var packed := Pack(limits, cells, bytes, truncated);
      !packed.truncated ==> !truncated && RowShows(packed.row, read)
  {
    hide ValueNode;
    if cells != [] {
      var n := |cells| - 1;
      PackShows(limits, cells[..n], bytes, truncated, read[..n]);
      if read[n].Some? {
        CellIsWholeOrCut(read[n].value, limits.maximumCellBytes);
      }
    }
  }

  lemma RowKeepsFaith(limits: Limits, c: Collected, log: seq<seq<Option<DbValue>>>)
    requires WithinLimits(limits, c) && Faithful(limits, c, log)
    ensures Faithful(limits, WithRow(limits, c), log)
  {
    hide Holds, RowShows, Pack, StoredBytes;
    if c.current.Some? {
      PackShows(limits, c.current.value, c.capturedBytes, c.truncated, log[|log| - 1]);
    }
  }

  lemma SchemaKeepsFaith(limits: Limits, c: Collected, log: seq<seq<Option<DbValue>>>, fields: seq<string>)
    requires WithinLimits(limits, c) && Faithful(limits, c, log)
    ensures Faithful(limits, WithSchema(limits, c, fields), log)
  {
    hide Holds, RowShows, StoredBytes;
  }

  lemma NewRowKeepsFaith(limits: Limits, r: Reader, fields: seq<string>)
    requires !r.terminalQueued && WithinLimits(limits, r.collected) && Faithful(limits, r.collected, r.log)
    ensures var next := RowBegun(limits, r, fields); Faithful(limits, next.collected, next.log)
  {
    hide RowShows, StoredBytes, Pack;
    var shaped := WithSchema(limits, r.collected, fields);
    SchemaKeepsFaith(limits, r.collected, r.log, fields);
    SchemaKeepsLimits(limits, r.collected, fields);
    RowKeepsFaith(limits, shaped, r.log);
  }

  lemma CellKeepsFaith(limits: Limits, r: Reader, ordinal: int, value: DbValue)
    requires !r.terminalQueued && WithinLimits(limits, r.collected) && Faithful(limits, r.collected, r.log)
    ensures Faithful(limits, WithCell(limits, r.collected, ordinal, value), Logged(r, ordinal, value))
  {
    hide RowShows, StoredBytes, ValueNode;
  }

  /**
   What a result built between rows says. Without truncation the reader ran out of rows, every row it
   returned is there, and each shows the last value read in every column, whole.
   */
  lemma BuildReports(limits: Limits, c: Collected, log: seq<seq<Option<DbValue>>>, readerCompleted: bool)
    requires Faithful(limits, c, log) && c.current.None?
    ensures var result := Build(c, readerCompleted);
      !result.truncated ==>
        && readerCompleted
        && result.rowsCaptured == result.rowsObserved == |result.rows| == |log|
        && (forall i :: 0 <= i < |log| ==> RowShows(result.rows[i], log[i]))
    ensures var result := Build(c, readerCompleted);
      (result.rowsCaptured < result.rowsObserved
       || exists i :: 0 <= i < |result.rows| && TooLarge in result.rows[i]) ==> result.truncated
  {
    hide Holds;
    if !c.truncated && exists i :: 0 <= i < |c.rows| && TooLarge in c.rows[i] {
      var i :| 0 <= i < |c.rows| && TooLarge in c.rows[i];
      assert RowShows(c.rows[i], log[i]);
    }
  }

  /** Finishing with no row in progress emits a truthful terminal, the first one only. */
  lemma FinishHonest(limits: Limits, r: Reader, readerCompleted: bool)
    requires Honest(limits, r) && r.collected.current.None?
    requires !r.terminalQueued && readerCompleted ==> r.ended
    ensures Honest(limits, Finished(r, readerCompleted))
  {
    hide RowShows, WithinLimits;
  }

  lemma FailureHonest(limits: Limits, r: Reader)
    requires Honest(limits, r)
    ensures Honest(limits, Emitted(r, WithFailure))
  {
    hide RowShows, WithinLimits, Faithful;
  }

  lemma RowHonest(limits: Limits, r: Reader)
    requires Honest(limits, r)
    ensures Honest(limits, RowCompleted(limits, r)) && RowCompleted(limits, r).collected.current.None?
  {
    hide WithinLimits, Faithful, Truthful;
    RowKeepsLimits(limits, r.collected);
    if !r.terminalQueued {
      RowKeepsFaith(limits, r.collected, r.log);
    }
  }

  lemma AdvanceHonest(limits: Limits, r: Reader, answer: Answer, fields: seq<string>)
    requires Honest(limits, r) && r.collected.current.None?
    ensures Honest(limits, Advanced(limits, r, answer, fields))
  {
    hide WithinLimits, Faithful, Truthful, Finished, WithNewRow;
    match answer
    case Row =>
      NewRowKeepsLimits(limits, r.collected, fields);
      if !r.terminalQueued {
        NewRowKeepsFaith(limits, r, fields);
      }
    case End =>
      FinishHonest(limits, if r.terminalQueued then r else r.(ended := true), true);
    case Error => FailureHonest(limits, r);
  }

  lemma CallHonest(limits: Limits, r: Reader, call: Call)
    requires Honest(limits, r)
    ensures Honest(limits, AfterCall(limits, r, call))
  {
    hide WithinLimits, Faithful, Truthful, Finished, Advanced, RowCompleted, Emitted, WithCell, Logged;
    RowHonest(limits, r);
    var ready := RowCompleted(limits, r);
    match call
    case Read(answer, fields) =>
      SchemaHonest(limits, ready, fields);
      AdvanceHonest(limits, SchemaTaken(limits, ready, fields), answer, fields);
    case MoveNext(answer, fields) => AdvanceHonest(limits, ready, answer, fields);
    case GetCell(ordinal, value) =>
      CellKeepsLimits(limits, r.collected, ordinal, value);
      if !r.terminalQueued {
        CellKeepsFaith(limits, r, ordinal, value);
      } else {
        assert Logged(r, ordinal, value) == r.log by { LogClosed(r, ordinal, value); }
      }
    case NextResult(throws) =>
      FailureHonest(limits, ready);
      FinishHonest(limits, ready, ready.readerCompleted);
    case Close(throws) => FinishHonest(limits, ready, ready.readerCompleted);
    case Dispose(throws) => FinishHonest(limits, ready, ready.readerCompleted);
  }

  lemma LogClosed(r: Reader, ordinal: int, value: DbValue)
    requires r.terminalQueued
    ensures Logged(r, ordinal, value) == r.log
  {
  }

  lemma SchemaHonest(limits: Limits, r: Reader, fields: seq<string>)
    requires Honest(limits, r) && r.collected.current.None?
    ensures Honest(limits, SchemaTaken(limits, r, fields))
    ensures WithSchema(limits, r.collected, fields).current.None?
  {
    hide WithinLimits, Faithful, Truthful;
    SchemaKeepsLimits(limits, r.collected, fields);
    if !r.terminalQueued {
      SchemaKeepsFaith(limits, r.collected, r.log, fields);
    }
  }

  /**
   Result fidelity over every sequence of reader calls: at most one terminal; and one that does not
   report truncation comes from a reader that ran out of rows, holds every row it returned, and shows
   every value the application read from it, whole, at its last-read value.
   */
  lemma {:induction false} RunHonest(limits: Limits, calls: seq<Call>)
    ensures Honest(limits, Run(limits, OPENED, calls))
  {
    hide Honest, AfterCall;
    if calls != [] {
      RunHonest(limits, calls[..|calls| - 1]);
      CallHonest(limits, Run(limits, OPENED, calls[..|calls| - 1]), calls[|calls| - 1]);
    } else {
      OpenedHonest(limits);
    }
  }

  lemma OpenedHonest(limits: Limits)
    ensures Honest(limits, OPENED)
  {
  }
}
