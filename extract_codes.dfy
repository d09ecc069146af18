/**
 * The stand-alone extraction script: strip the first column of the sheet,
 * print a preview of its first ten rows and the row count, and write one
 * row per line to `output.txt`.
 */
module ExtractScript {
  import opened CodeList
  import opened Console

  const PreviewRows: nat := 10

  function Min(a: nat, b: nat): nat {
    if a < b then a else b
  }

  /**
   * The debug preview: a heading, then `Row i: value` for the first ten rows
   * (fewer if the column is shorter), numbered from 1.
   */
  method Preview(column: seq<string>) returns (preview: seq<Message>)
    ensures |preview| == Min(PreviewRows, |column|) + 1 && preview[0] == PreviewHeading
    ensures forall k :: 0 <= k < Min(PreviewRows, |column|) ==> preview[k + 1] == PreviewRow(k + 1, column[k])
  {
    var shown := Min(PreviewRows, |column|);
    preview := [PreviewHeading];
    var i := 0;
    while i < shown
      invariant 0 <= i <= shown
      invariant |preview| == i + 1 && preview[0] == PreviewHeading
      invariant forall k :: 0 <= k < i ==> preview[k + 1] == PreviewRow(k + 1, column[k])
    {
      preview := preview + [PreviewRow(i + 1, column[i])];
      i := i + 1;
    }
  }

  /**
   * The script, top to bottom. `cells` are the first-column cells of the data
   * rows, blank ones included (empty cells are read as empty strings, not as
   * missing values). Returns the content of `output.txt` and what was printed.
   */
  method Run(cells: seq<string>) returns (content: string, log: seq<Message>)
    ensures content == Joined(StripAll(cells))
    ensures |log| == Min(PreviewRows, |cells|) + 3
    ensures log[0] == PreviewHeading
    ensures forall k :: 0 <= k < Min(PreviewRows, |cells|) ==> log[k + 1] == PreviewRow(k + 1, Strip(cells[k]))
    ensures log[|log| - 2] == RowCount(|cells|) && log[|log| - 1] == Extracted
  {
    var column := StripAll(cells);
    var preview := Preview(column);
    log := preview + [RowCount(|column|)];
    content := WriteLines(column);
    log := log + [Extracted];
    assert forall k :: 0 <= k < |preview| ==> log[k] == preview[k];
  }
}
