/**
 * The stand-alone generator script: read `output.txt`, report how many codes
 * it holds, and generate one Data Matrix image per code.
 */
module GenerateDatamatrix {
  import opened Wrappers
  import opened Raster
  import opened CodeList
  import opened Console
  import opened Batch

  /**
   * `main`. `outputTxt` is the content of `output.txt`, or `None` when the
   * file is missing, in which case opening it raises outside any `try` and
   * the script stops before printing anything: `completed` is false.
   * Otherwise the codes are the stripped non-blank lines, their number is
   * reported, and the batch loop runs over them.
   */
  method Generate(outputTxt: Option<string>, encode: Encoder, dir: map<string, Image>)
    returns (saved: map<string, Image>, log: seq<Message>, completed: bool)
    ensures completed <==> outputTxt.Some?
    ensures outputTxt.None? ==> saved == dir && log == []
    ensures outputTxt.Some? ==>
      var codes := ReadCodes(outputTxt.value);
      saved == Store(dir, Results(encode, codes))
      && log == [GeneratingItems(|codes|)] + ItemLog(codes, Results(encode, codes)) + [Generated]
  {
    if outputTxt.None? {
      return dir, [], false;
    }
    var codes := ReadCodes(outputTxt.value);
    log := [GeneratingItems(|codes|)];
    var items, attempted;
    saved, items, attempted := GenerateAll(codes, encode, dir);
    log := log + items + [Generated];
    completed := true;
  }
}
