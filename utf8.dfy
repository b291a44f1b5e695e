/** The size the retention scan charges for one row:
    `Encoding.UTF8.GetBytes(string.Join(' ', row)).Length`. */
module Utf8 {

  /** Bytes of the UTF-8 encoding of one Unicode scalar value. */
  function CharBytes(c: char): (n: nat)
    ensures 1 <= n <= 4
    ensures n == 1 <==> c as int < 0x80
  {
    if c as int < 0x80 then 1
    else if c as int < 0x800 then 2
    else if c as int < 0x10000 then 3
    else 4
  }

  /** Length of the UTF-8 encoding of a string. */
  function ByteCount(s: string): (n: nat)
    ensures |s| <= n <= 4 * |s|
  {
    if |s| == 0 then 0 else CharBytes(s[0]) + ByteCount(s[1..])
  }

  /** `string.Join(sep, cells)`: the cells with one `sep` between neighbours. */
  function Join(sep: char, cells: seq<string>): string {
    if |cells| == 0 then ""
    else if |cells| == 1 then cells[0]
    else cells[0] + [sep] + Join(sep, cells[1..])
  }

  /** The byte size of one table row as the retention scan measures it. */
  function RowSize(row: seq<string>): nat {
    ByteCount(Join(' ', row))
  }

  /** Sum of the UTF-8 sizes of the cells alone. */
  function CellBytes(cells: seq<string>): nat {
    if |cells| == 0 then 0 else ByteCount(cells[0]) + CellBytes(cells[1..])
  }

  lemma {:induction false} ByteCountAppend(a: string, b: string)
    ensures ByteCount(a + b) == ByteCount(a) + ByteCount(b)
    decreases |a|
  {
    if |a| == 0 {
      assert a + b == b;
    } else {
      assert (a + b)[1..] == a[1..] + b;
      ByteCountAppend(a[1..], b);
    }
  }

  /** A row costs the bytes of its cells plus one byte for each separating
      space. */
  lemma {:induction false} RowSizeOfCells(row: seq<string>)
    ensures RowSize(row) == CellBytes(row) + (if |row| == 0 then 0 else |row| - 1)
    decreases |row|
  {
    if |row| > 1 {
      RowSizeOfCells(row[1..]);
      ByteCountAppend(row[0] + [' '], Join(' ', row[1..]));
      ByteCountAppend(row[0], [' ']);
      assert ByteCount([' ']) == 1;
    } else if |row| == 1 {
      assert row[1..] == [];
    }
  }
}
