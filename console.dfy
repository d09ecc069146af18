/**
 * What the scripts print, one constructor per kind of message; the console
 * output of a run is the sequence of these it prints, in order. Only the
 * values a message carries are kept, not its wording.
 */
module Console {

  datatype Message =
    | Extracting                                    // extraction from the workbook starts
    | CodesFound(count: nat)                        // number of codes read from the sheet
    | PreviewHeading                                // heading of the debug preview
    | PreviewRow(row: nat, value: string)           // one preview line: 1-based row and its value
    | RowCount(count: nat)                          // total number of rows
    | Extracted                                     // the code list file has been written
    | Generating                                    // symbol generation starts
    | GeneratingItems(count: nat)                   // symbol generation starts, for `count` codes
    | Processed(count: nat)                         // progress: `count` items done
    | GenerationError(code: string, reason: string) // one item failed, with its code and the error text
    | Generated                                     // symbol generation is over
    | NothingExtracted                              // no rows, so generation is skipped
}
