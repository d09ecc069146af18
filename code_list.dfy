/**
 * The code list file `output.txt`: how the extractor writes it (one trimmed
 * cell per line) and how the generator reads it back (strip every line, keep
 * the non-blank ones), and the round trip between the two.
 */
module CodeList {

  /** Python's `str.isspace` restricted to ASCII and Latin-1. */
  predicate IsSpace(c: char) {
    c == ' ' || c == '\t' || c == '\n' || c == '\r' || c == '\U{0B}' || c == '\U{0C}'
    || ('\U{1C}' <= c <= '\U{1F}') || c == '\U{85}' || c == '\U{A0}'
  }

  /** The characters that end a line when a file is read in text mode. */
  predicate IsLineBreak(c: char) {
    c == '\n' || c == '\r'
  }

  predicate AllSpace(s: string) {
    forall i :: 0 <= i < |s| ==> IsSpace(s[i])
  }

  predicate NoLineBreak(s: string) {
    forall i :: 0 <= i < |s| ==> !IsLineBreak(s[i])
  }

  /** Neither begins nor ends with whitespace: what `str.strip` leaves. */
  predicate IsTrimmed(s: string) {
    s == [] || (!IsSpace(s[0]) && !IsSpace(s[|s| - 1]))
  }

  /** The index of the first non-whitespace character of `s` at or after `k`, or `|s|` if there is none. */
  function LeadEnd(s: string, k: nat): (n: nat)
    requires k <= |s|
    ensures k <= n <= |s|
    ensures forall i :: k <= i < n ==> IsSpace(s[i])
    ensures n < |s| ==> !IsSpace(s[n])
    decreases |s| - k
  {
    if k < |s| && IsSpace(s[k]) then LeadEnd(s, k + 1) else k
  }

  /**
   * The index just past the last non-whitespace character of `s` in
   * `[lo, k)`, or `lo` if there is none.
   */
  function TrailEnd(s: string, lo: nat, k: nat): (n: nat)
    requires lo <= k <= |s|
    ensures lo <= n <= k
    ensures forall i :: n <= i < k ==> IsSpace(s[i])
    ensures n > lo ==> !IsSpace(s[n - 1])
  {
    if k > lo && IsSpace(s[k - 1]) then TrailEnd(s, lo, k - 1) else k
  }

  /** `LeadEnd` is the only index with its two properties. */
  lemma LeadEndAt(s: string, k: nat, m: nat)
    requires k <= m <= |s|
    requires forall i :: k <= i < m ==> IsSpace(s[i])
    requires m < |s| ==> !IsSpace(s[m])
    ensures LeadEnd(s, k) == m
  {
  }

  /** `TrailEnd` is the only index with its two properties. */
  lemma TrailEndAt(s: string, lo: nat, k: nat, m: nat)
    requires lo <= m <= k <= |s|
    requires forall i :: m <= i < k ==> IsSpace(s[i])
    requires m > lo ==> !IsSpace(s[m - 1])
    ensures TrailEnd(s, lo, k) == m
  {
  }

  /** `s.strip()`: `s` without its leading and trailing whitespace. */
  function Strip(s: string): (r: string)
    ensures IsTrimmed(r)
    ensures exists i, j :: 0 <= i <= j <= |s| && r == s[i..j] && AllSpace(s[..i]) && AllSpace(s[j..])
  {
    var i := LeadEnd(s, 0);
    var j := TrailEnd(s, i, |s|);
    assert AllSpace(s[..i]) by {
      forall k | 0 <= k < i ensures IsSpace(s[..i][k]) { assert s[..i][k] == s[k]; }
    }
    assert AllSpace(s[j..]) by {
      forall k | 0 <= k < |s| - j ensures IsSpace(s[j..][k]) { assert s[j..][k] == s[j + k]; }
    }
    s[i..j]
  }

  /**
   * Stripping a trimmed string padded with whitespace on either side gives the
   * string back: `Strip` is characterised by this and by its ensures.
   */
  lemma StripPadded(a: string, r: string, b: string)
    requires AllSpace(a) && AllSpace(b) && IsTrimmed(r)
    ensures Strip(a + r + b) == r
  {
    var s := a + r + b;
    var e := |a| + |r|;
    forall i | 0 <= i < |a| ensures IsSpace(s[i]) { assert s[i] == a[i]; }
    forall i | e <= i < |s| ensures IsSpace(s[i]) { assert s[i] == b[i - e]; }
    if r == [] {
      LeadEndAt(s, 0, |s|);
      TrailEndAt(s, |s|, |s|, |s|);
      assert s[|s|..|s|] == r;
    } else {
      assert s[|a|] == r[0] && s[e - 1] == r[|r| - 1];
      LeadEndAt(s, 0, |a|);
      TrailEndAt(s, |a|, |s|, e);
      assert s[|a|..e] == r;
    }
  }

  /** Stripping is idempotent. */
  lemma StripIdempotent(s: string)
    ensures Strip(Strip(s)) == Strip(s)
  {
    StripPadded([], Strip(s), []);
    assert [] + Strip(s) + [] == Strip(s);
  }

  /** `column.str.strip()`: every cell stripped, one result per cell. */
  function StripAll(cells: seq<string>): (column: seq<string>)
    ensures |column| == |cells|
    ensures forall k :: 0 <= k < |cells| ==> column[k] == Strip(cells[k])
  {
    seq(|cells|, k requires 0 <= k < |cells| => Strip(cells[k]))
  }

  /**
   * Universal newlines, as Python's text mode applies them on reading:
   * every "\r\n" and every lone '\r' becomes '\n'.
   */
  function Universal(s: string): (r: string)
    ensures '\r' !in r
  {
    if s == [] then []
    else if s[0] == '\r' then
      "\n" + Universal(if |s| > 1 && s[1] == '\n' then s[2..] else s[1..])
    else [s[0]] + Universal(s[1..])
  }

  /** Text with no carriage return is read as it was written. */
  lemma {:induction false} UniversalKeeps(s: string)
    requires '\r' !in s
    ensures Universal(s) == s
  {
    if s != [] {
      assert '\r' !in s[1..];
      UniversalKeeps(s[1..]);
    }
  }

  /** Index just past the first '\n' of `s`, or `|s|` when there is none. */
  function LineEnd(s: string): (k: nat)
    ensures k <= |s|
    ensures s != [] ==> 0 < k
    ensures forall i :: 0 <= i < k - 1 ==> s[i] != '\n'
    ensures '\n' in s ==> s[k - 1] == '\n'
    ensures '\n' !in s ==> k == |s|
  {
    if s == [] then 0
    else if s[0] == '\n' then 1
    else
      var k := 1 + LineEnd(s[1..]);
      assert forall i :: 1 <= i < k - 1 ==> s[i] == s[1..][i - 1];
      assert '\n' in s ==> '\n' in s[1..];
      k
  }

  function Flatten(ls: seq<string>): string {
    if ls == [] then [] else ls[0] + Flatten(ls[1..])
  }

  /** '\n' occurs in `l` at most as its last character. */
  predicate NewlineOnlyAtEnd(l: string) {
    forall i :: 0 <= i < |l| - 1 ==> l[i] != '\n'
  }

  predicate EndsInNewline(l: string) {
    |l| > 0 && l[|l| - 1] == '\n'
  }

  /**
   * The lines that iterating over a text file yields, given its content after
   * newline translation: each keeps its terminating '\n', which is its only
   * '\n'; only the last may lack one; no line is empty.
   */
  function Lines(s: string): (ls: seq<string>)
    ensures Flatten(ls) == s
    ensures forall l <- ls :: l != [] && NewlineOnlyAtEnd(l)
    ensures forall k :: 0 <= k < |ls| - 1 ==> EndsInNewline(ls[k])
    decreases |s|
  {
    if s == [] then []
    else
      var k := LineEnd(s);
      var rest := Lines(s[k..]);
      FirstLine(s, k, rest);
      [s[..k]] + rest
  }

  /** The first line of `s`, up to and including its first '\n', followed by the lines of the rest. */
  lemma FirstLine(s: string, k: nat, rest: seq<string>)
    requires s != [] && k == LineEnd(s)
    requires Flatten(rest) == s[k..]
    requires forall l <- rest :: l != [] && NewlineOnlyAtEnd(l)
    requires forall j :: 0 <= j < |rest| - 1 ==> EndsInNewline(rest[j])
    ensures var ls := [s[..k]] + rest;
      Flatten(ls) == s
      && (forall l <- ls :: l != [] && NewlineOnlyAtEnd(l))
      && (forall j :: 0 <= j < |ls| - 1 ==> EndsInNewline(ls[j]))
  {
    var line := s[..k];
    assert NewlineOnlyAtEnd(line) by {
      forall i | 0 <= i < |line| - 1 ensures line[i] != '\n' { assert line[i] == s[i]; }
    }
    if rest != [] {
      assert rest[0] in rest && Flatten(rest) == rest[0] + Flatten(rest[1..]);
      assert s[k..] != [] && '\n' in s;
      assert EndsInNewline(line);
    }
    var ls := [line] + rest;
    assert ls[1..] == rest && line + s[k..] == s;
    assert forall j :: 1 <= j < |ls| ==> ls[j] == rest[j - 1];
  }

  /** The text written by `for code in codes: f.write(f"{code}\n")`. */
  function Joined(codes: seq<string>): string {
    if codes == [] then [] else codes[0] + "\n" + Joined(codes[1..])
  }

  /** Writing one more code appends it and its terminator to the text. */
  lemma {:induction false} JoinedSnoc(codes: seq<string>, c: string)
    ensures Joined(codes + [c]) == Joined(codes) + c + "\n"
  {
    if codes != [] {
      assert (codes + [c])[1..] == codes[1..] + [c];
      JoinedSnoc(codes[1..], c);
    }
  }

  function Terminated(codes: seq<string>): (ls: seq<string>)
    ensures |ls| == |codes|
  {
    seq(|codes|, k requires 0 <= k < |codes| => codes[k] + "\n")
  }

  lemma LineEndOfTerminated(c: string, rest: string)
    requires NoLineBreak(c)
    ensures LineEnd(c + "\n" + rest) == |c| + 1
  {
    var s := c + "\n" + rest;
    assert s[|c|] == '\n';
    assert forall i :: 0 <= i < |c| ==> s[i] == c[i] && s[i] != '\n';
  }

  /**
   * Reading back what was written: when no code holds a line break, the file
   * has exactly one line per code, that code followed by '\n'.
   */
  lemma {:induction false} LinesOfJoined(codes: seq<string>)
    requires forall c <- codes :: NoLineBreak(c)
    ensures Lines(Joined(codes)) == Terminated(codes)
  {
    if codes != [] {
      var c, tail := codes[0], Joined(codes[1..]);
      var s, k := Joined(codes), |c| + 1;
      assert s == c + "\n" + tail;
      LineEndOfTerminated(c, tail);
      assert s[..k] == c + "\n" && s[k..] == tail;
      assert forall c' <- codes[1..] :: c' in codes;
      LinesOfJoined(codes[1..]);
      TerminatedCons(codes);
    }
  }

  lemma TerminatedCons(codes: seq<string>)
    requires codes != []
    ensures Terminated(codes) == [codes[0] + "\n"] + Terminated(codes[1..])
  {
  }

  /** What one line contributes to the list read back: its stripped form, unless that is empty. */
  function Kept(line: string): (codes: seq<string>)
    ensures |codes| <= 1
    ensures forall c <- codes :: c != [] && IsTrimmed(c)
    ensures codes == [] <==> Strip(line) == []
    ensures Strip(line) != [] ==> codes == [Strip(line)]
  {
    if Strip(line) == [] then [] else [Strip(line)]
  }

  /** `[line.strip() for line in lines if line.strip()]` */
  function Clean(lines: seq<string>): (codes: seq<string>)
    ensures |codes| <= |lines|
    ensures forall c <- codes :: c != [] && IsTrimmed(c)
  {
    if lines == [] then [] else Kept(lines[0]) + Clean(lines[1..])
  }

  /** Cleaning works line by line, keeping the lines' order. */
  lemma {:induction false} CleanAppend(a: seq<string>, b: seq<string>)
    ensures Clean(a + b) == Clean(a) + Clean(b)
  {
    if a == [] {
      assert a + b == b;
    } else {
      var ab := a + b;
      assert ab[0] == a[0] && ab[1..] == a[1..] + b;
      var head := Kept(a[0]);
      assert Clean(ab) == head + Clean(a[1..] + b);
      CleanAppend(a[1..], b);
      assert head + (Clean(a[1..]) + Clean(b)) == (head + Clean(a[1..])) + Clean(b);
    }
  }

  /** The codes kept, in order, are those that are not empty. */
  function NonEmpty(codes: seq<string>): (r: seq<string>)
    ensures forall c <- r :: c != [] && c in codes
  {
    if codes == [] then []
    else (if codes[0] == [] then [] else [codes[0]]) + NonEmpty(codes[1..])
  }

  /**
   * The reader's filter, line by line, is the same as stripping every line
   * and then dropping the empty results: the stripped non-blank lines, in
   * order.
   */
  lemma {:induction false} CleanIsStripFilter(lines: seq<string>)
    ensures Clean(lines) == NonEmpty(StripAll(lines))
  {
    if lines != [] {
      var column := StripAll(lines);
      assert column[0] == Strip(lines[0]);
      assert column[1..] == StripAll(lines[1..]);
      CleanIsStripFilter(lines[1..]);
    }
  }

  lemma {:induction false} NonEmptyKeeps(codes: seq<string>)
    requires forall c <- codes :: c != []
    ensures NonEmpty(codes) == codes
  {
    if codes != [] {
      assert forall c <- codes[1..] :: c in codes;
      assert codes[0] in codes;
      NonEmptyKeeps(codes[1..]);
      assert codes == [codes[0]] + codes[1..];
    }
  }

  /**
   * A line that carries at most a final '\n' strips to a code without line
   * breaks.
   */
  lemma StripLine(l: string)
    requires '\r' !in l && NewlineOnlyAtEnd(l)
    ensures NoLineBreak(Strip(l))
  {
    var r := Strip(l);
    var i, j :| 0 <= i <= j <= |l| && r == l[i..j];
    forall k | 0 <= k < |r| ensures !IsLineBreak(r[k]) {
      assert r[k] == l[i + k];
      assert l[i + k] in l;
      if i + k == |l| - 1 {
        assert k == |r| - 1;
      }
    }
  }

  lemma {:induction false} CleanNoLineBreak(lines: seq<string>)
    requires forall l <- lines :: '\r' !in l && NewlineOnlyAtEnd(l)
    ensures forall c <- Clean(lines) :: NoLineBreak(c)
  {
    if lines != [] {
      StripLine(lines[0]);
      assert forall l <- lines[1..] :: l in lines;
      CleanNoLineBreak(lines[1..]);
    }
  }

  lemma {:induction false} FlattenNoReturn(ls: seq<string>, l: string)
    requires '\r' !in Flatten(ls)
    requires l in ls
    ensures '\r' !in l
  {
    if ls[0] != l {
      assert forall c :: c in Flatten(ls[1..]) ==> c in Flatten(ls);
      FlattenNoReturn(ls[1..], l);
    } else {
      assert forall c :: c in l ==> c in Flatten(ls);
    }
  }

  /**
   * The generator's reading of `output.txt`: the stripped, non-blank lines in
   * file order. Every code it yields is non-empty, trimmed and free of line
   * breaks.
   */
  function ReadCodes(content: string): (codes: seq<string>)
    ensures codes == NonEmpty(StripAll(Lines(Universal(content))))
    ensures forall c <- codes :: c != [] && IsTrimmed(c) && NoLineBreak(c)
  {
    var lines := Lines(Universal(content));
    assert forall l <- lines :: '\r' !in l by {
      forall l <- lines ensures '\r' !in l {
        FlattenNoReturn(lines, l);
      }
    }
    CleanNoLineBreak(lines);
    CleanIsStripFilter(lines);
    Clean(lines)
  }

  lemma {:induction false} CleanTerminated(codes: seq<string>)
    requires forall c <- codes :: IsTrimmed(c)
    ensures Clean(Terminated(codes)) == NonEmpty(codes)
  {
    if codes != [] {
      var c := codes[0];
      var t := Terminated(codes);
      TerminatedCons(codes);
      assert t[0] == c + "\n" && t[1..] == Terminated(codes[1..]);
      StripPadded([], c, "\n");
      assert [] + c + "\n" == c + "\n";
      assert forall c' <- codes[1..] :: c' in codes;
      CleanTerminated(codes[1..]);
    }
  }

  lemma JoinedNoReturn(codes: seq<string>)
    requires forall c <- codes :: NoLineBreak(c)
    ensures '\r' !in Joined(codes)
  {
    if codes != [] {
      assert forall c <- codes[1..] :: c in codes;
      JoinedNoReturn(codes[1..]);
      assert codes[0] in codes;
      assert forall i :: 0 <= i < |codes[0]| ==> codes[0][i] != '\r';
    }
  }

  /**
   * Round trip: codes that are already trimmed and hold no line break, written
   * one per line and read back, give exactly the non-empty ones in their
   * original order.
   */
  lemma ReadWritten(codes: seq<string>)
    requires forall c <- codes :: IsTrimmed(c) && NoLineBreak(c)
    ensures ReadCodes(Joined(codes)) == NonEmpty(codes)
  {
    JoinedNoReturn(codes);
    UniversalKeeps(Joined(codes));
    LinesOfJoined(codes);
    CleanTerminated(codes);
  }

  /** Codes that are trimmed, non-empty and free of line breaks survive the round trip unchanged. */
  lemma ReadWrittenExactly(codes: seq<string>)
    requires forall c <- codes :: c != [] && IsTrimmed(c) && NoLineBreak(c)
    ensures ReadCodes(Joined(codes)) == codes
  {
    ReadWritten(codes);
    NonEmptyKeeps(codes);
  }

  /** Re-writing what was read and reading it again changes nothing. */
  lemma ReadIsStable(content: string)
    ensures ReadCodes(Joined(ReadCodes(content))) == ReadCodes(content)
  {
    ReadWrittenExactly(ReadCodes(content));
  }

  /**
   * The whole file hand-off: a sheet column whose cells keep no line break
   * once stripped (line breaks at either end are cut off with the other
   * whitespace) is written and read back as its non-blank stripped cells, in
   * row order.
   */
  lemma ExtractedRoundTrip(cells: seq<string>)
    requires forall c <- cells :: NoLineBreak(Strip(c))
    ensures ReadCodes(Joined(StripAll(cells))) == NonEmpty(StripAll(cells))
  {
    var column := StripAll(cells);
    forall c <- column ensures IsTrimmed(c) && NoLineBreak(c) {
      var k :| 0 <= k < |column| && column[k] == c;
      assert cells[k] in cells;
    }
    ReadWritten(column);
  }

  /**
   * What the extractors write: when no stripped cell holds a line break, the
   * file has exactly one line per row, blank rows included, line `k` being
   * stripped cell `k` followed by a newline.
   */
  lemma ColumnLines(cells: seq<string>)
    requires forall c <- cells :: NoLineBreak(Strip(c))
    ensures |Lines(Joined(StripAll(cells)))| == |cells|
    ensures forall k :: 0 <= k < |cells| ==> Lines(Joined(StripAll(cells)))[k] == Strip(cells[k]) + "\n"
  {
    var column := StripAll(cells);
    forall c <- column ensures NoLineBreak(c) {
      var k :| 0 <= k < |column| && column[k] == c;
      assert cells[k] in cells;
    }
    LinesOfJoined(column);
  }

  /** A column of blank cells reads back as no codes at all. */
  lemma BlankColumnReadsEmpty(cells: seq<string>)
    requires forall c <- cells :: Strip(c) == []
    ensures ReadCodes(Joined(StripAll(cells))) == []
  {
    var column := StripAll(cells);
    assert forall c <- column :: c == [];
    ReadWritten(column);
    assert NonEmpty(column) == [] by {
      NonEmptyBlank(column);
    }
  }

  lemma {:induction false} NonEmptyBlank(codes: seq<string>)
    requires forall c <- codes :: c == []
    ensures NonEmpty(codes) == []
  {
    if codes != [] {
      assert forall c <- codes[1..] :: c in codes;
      assert codes[0] in codes;
      NonEmptyBlank(codes[1..]);
    }
  }

  /**
   * The write loop of both extractors: one `f.write(f"{code}\n")` per code,
   * in order.
   */
  method WriteLines(codes: seq<string>) returns (content: string)
    ensures content == Joined(codes)
  {
    content := "";
    for k := 0 to |codes|
      invariant content == Joined(codes[..k])
    {
      JoinedSnoc(codes[..k], codes[k]);
      assert codes[..k + 1] == codes[..k] + [codes[k]];
      content := content + codes[k] + "\n";
    }
    assert codes[..|codes|] == codes;
  }
}
