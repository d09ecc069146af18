/**
 * The two-step pipeline script: extract the sheet's first column into
 * `output.txt`, then, if any row was found, generate one Data Matrix image
 * per code read back from that file.
 */
module ProcessCodes {
  import opened Raster
  import opened CodeList
  import opened Console
  import opened Batch

  /**
   * `extract_codes`: strip every cell of the first column (the data rows
   * after the header, blank cells included), write one per line to
   * `output.txt`, and return the number of rows. Returns the file's content,
   * the row count and what was printed.
   */
  method ExtractCodes(cells: seq<string>) returns (content: string, total: nat, log: seq<Message>)
    ensures total == |cells|
    ensures content == Joined(StripAll(cells))
    ensures log == [Extracting, CodesFound(|cells|), Extracted]
  {
    log := [Extracting];
    var column := StripAll(cells);
    log := log + [CodesFound(|column|)];
    content := WriteLines(column);
    log := log + [Extracted];
    total := |column|;
  }

  /**
   * `generate_datamatrix_codes`: read `output.txt` back (stripped, non-blank
   * lines) and run the batch loop over those codes. Returns the image
   * directory afterwards and what was printed.
   */
  method GenerateDatamatrixCodes(content: string, encode: Encoder, dir: map<string, Image>)
    returns (saved: map<string, Image>, log: seq<Message>)
    ensures var rs := Results(encode, ReadCodes(content));
      saved == Store(dir, rs) && log == [Generating] + ItemLog(ReadCodes(content), rs) + [Generated]
  {
    log := [Generating];
    var codes := ReadCodes(content);
    var items, attempted;
    saved, items, attempted := GenerateAll(codes, encode, dir);
    log := log + items + [Generated];
  }

  /**
   * `main`: extraction always runs; generation runs exactly when the sheet
   * has at least one data row, blank or not.
   */
  method Pipeline(cells: seq<string>, encode: Encoder, dir: map<string, Image>)
    returns (content: string, saved: map<string, Image>, log: seq<Message>)
    ensures content == Joined(StripAll(cells))
    ensures |cells| == 0 ==>
      saved == dir && log == [Extracting, CodesFound(0), Extracted, NothingExtracted]
    ensures |cells| > 0 ==>
      var codes := ReadCodes(content);
      saved == Store(dir, Results(encode, codes))
      && log == [Extracting, CodesFound(|cells|), Extracted]
                + ([Generating] + ItemLog(codes, Results(encode, codes)) + [Generated])
  {
    var total;
    content, total, log := ExtractCodes(cells);
    if total > 0 {
      var generated;
      saved, generated := GenerateDatamatrixCodes(content, encode, dir);
      log := log + generated;
    } else {
      saved := dir;
      log := log + [NothingExtracted];
    }
  }

  /**
   * A sheet whose rows are all blank passes the row-count test, yet the
   * generator reads no code back, so no image is written and the log of
   * `Pipeline` goes straight from the start of generation to its end.
   */
  lemma BlankSheetMakesNoImages(cells: seq<string>, encode: Encoder, dir: map<string, Image>)
    requires |cells| > 0 && forall c <- cells :: Strip(c) == []
    ensures ReadCodes(Joined(StripAll(cells))) == []
    ensures var codes := ReadCodes(Joined(StripAll(cells)));
      Store(dir, Results(encode, codes)) == dir
      && [Extracting, CodesFound(|cells|), Extracted] + ([Generating] + ItemLog(codes, Results(encode, codes)) + [Generated])
         == [Extracting, CodesFound(|cells|), Extracted, Generating, Generated]
  {
    BlankColumnReadsEmpty(cells);
  }

  /**
   * End to end: when no stripped cell holds a line break, the codes generated are the
   * non-blank stripped cells in row order, so item `i` is the `i`-th
   * non-blank row.
   */
  lemma PipelineCodes(cells: seq<string>)
    requires forall c <- cells :: NoLineBreak(Strip(c))
    ensures ReadCodes(Joined(StripAll(cells))) == NonEmpty(StripAll(cells))
  {
    ExtractedRoundTrip(cells);
  }
}
