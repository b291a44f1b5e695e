/** The ordered table both loggers keep their history in (a QuickCsv.Net
    `Table`, reached only through the operations below), and the
    `TruncateLog` loop that both loggers run over it. */
module LogTable {
  import opened Wrappers

  /** One record: its cells, in column order. */
  type Row = seq<string>

  /** What a table file holds: the header row and the records. */
  datatype Image = Image(columns: seq<string>, rows: seq<Row>)

  class Table {
    /** The column names (the header row of the file). */
    var columns: seq<string>
    /** The records, oldest first. */
    var rows: seq<Row>
    /** What the table's file holds: the image loaded from it, or the one last
        written to it; `None` while no file exists. */
    var persisted: Option<Image>

    /** `new Table()`: no columns, no rows, no file yet. */
    constructor ()
      ensures columns == [] && rows == [] && persisted == None
    {
      columns, rows, persisted := [], [], None;
    }

    /** `LoadFromFile(path, hasHeaders: true)`, with the file's text already
        parsed into `file`. */
    method LoadFromFile(file: Image)
      modifies this
      ensures columns == file.columns && rows == file.rows && persisted == Some(file)
    {
      columns, rows, persisted := file.columns, file.rows, Some(file);
    }

    method SetColumnNames(names: seq<string>)
      modifies this`columns
      ensures columns == names
    {
      columns := names;
    }

    /** `AppendRecord(values)`: a new last row. */
    method AppendRecord(values: Row)
      modifies this`rows
      ensures rows == old(rows) + [values]
    {
      rows := rows + [values];
    }

    /** `RemoveRecord(index)`: every later row moves up by one. */
    method RemoveRecord(index: nat)
      requires index < |rows|
      modifies this`rows
      ensures rows == old(rows)[..index] + old(rows)[index + 1..]
    {
      rows := rows[..index] + rows[index + 1..];
    }

    function Length(): nat
      reads this`rows
    {
      |rows|
    }

    /** `GetCell(index, column)`; `None` when the record has no such cell. */
    function GetCell(index: nat, column: nat): Option<string>
      reads this`rows
      requires index < |rows|
    {
      if column < |rows[index]| then Some(rows[index][column]) else None
    }

    function GetRecord(index: nat): Row
      reads this`rows
      requires index < |rows|
    {
      rows[index]
    }

    function Snapshot(): Image
      reads this`columns, this`rows
    {
      Image(columns, rows)
    }

    /** `WriteTableToFile(path)`: the whole table replaces the file's content.
        Whether the write succeeds (a locked file, a full disk) is decided by
        the environment and passed in as `succeeds`; a failed write leaves the
        file as it was. */
    method WriteTableToFile(succeeds: bool) returns (written: bool)
      modifies this`persisted
      ensures written == succeeds
      ensures persisted == if succeeds then Some(Snapshot()) else old(persisted)
    {
      written := succeeds;
      if succeeds {
        persisted := Some(Snapshot());
      }
    }
  }

  /** `TruncateLog(i)`: removes rows `i, i-1, ..., 0`, one `RemoveRecord` at a
      time from the highest index down, so every index is still in range when
      it is removed and exactly the rows after `i` remain, in their order. */
  method TruncateLog(t: Table, i: nat)
    requires i < |t.rows|
    modifies t`rows
    ensures t.rows == old(t.rows)[i + 1..]
    ensures |t.rows| == |old(t.rows)| - (i + 1)
  {
    ghost var original := t.rows;
    var r: int := i;
    while r >= 0
      invariant -1 <= r <= i
      invariant t.rows == original[..r + 1] + original[i + 1..]
    {
      assert t.rows[..r] == original[..r];
      assert t.rows[r + 1..] == original[i + 1..];
      t.RemoveRecord(r);
      r := r - 1;
    }
    assert original[..0] == [];
  }
}
