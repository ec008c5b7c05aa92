/** What generatehexfile returns (loader/bin2hex.py, lines 114-178), and the
    file the main program saves from it (lines 316-318): the generated lines
    joined by "\n", then one more "\n". Reading that file back with
    readHexFile gives exactly the generated records. */
module SavedFile {
  import opened Results
  import opened HexRecords
  import opened HexReader
  import opened Layout
  import opened LayoutProofs

  /** `'\n'.join(lines)`. */
  function JoinLines(lines: seq<string>): string
    decreases |lines|
  {
    if |lines| == 0 then ""
    else if |lines| == 1 then lines[0]
    else lines[0] + "\n" + JoinLines(lines[1..])
  }

  /** Each line with its newline, as iterating over a text file yields it. */
  function Terminated(lines: seq<string>): (r: seq<string>)
    ensures |r| == |lines|
  {
    seq(|lines|, i requires 0 <= i < |lines| => lines[i] + "\n")
  }

  predicate NoLineBreaks(lines: seq<string>) {
    forall i :: 0 <= i < |lines| ==> forall j :: 0 <= j < |lines[i]| ==> lines[i][j] != '\n'
  }

  /** The saved text: the joined lines and a trailing newline. Read back as
      a text file, it yields each line with its newline, and a lone newline
      when there were no lines. */
  function SavedText(lines: seq<string>): (t: string)
    ensures lines == [] ==> SplitLines(t) == ["\n"]
    ensures lines != [] && NoLineBreaks(lines) ==> SplitLines(t) == Terminated(lines)
  {
    if lines == [] then
      var t := JoinLines(lines) + "\n";
      assert t == "\n" && LineLength(t) == 1;
      assert t[..1] == "\n" && t[1..] == [];
      assert SplitLines(t) == ["\n"] + SplitLines([]);
      t
    else if NoLineBreaks(lines) then
      SplitJoined(lines);
      JoinLines(lines) + "\n"
    else
      JoinLines(lines) + "\n"
  }

  lemma {:induction false} SplitJoined(lines: seq<string>)
    requires lines != [] && NoLineBreaks(lines)
    ensures SplitLines(JoinLines(lines) + "\n") == Terminated(lines)
    decreases |lines|
  {
    var tail := lines[1..];
    NoLineBreaksTail(lines, tail);
    if tail == [] {
      assert JoinLines(lines) + "\n" == lines[0] + "\n" + "";
      SplitFirstLine(lines[0], "");
    } else {
      var rest := JoinLines(tail) + "\n";
      assert JoinLines(lines) + "\n" == lines[0] + "\n" + rest;
      SplitFirstLine(lines[0], rest);
      SplitJoined(tail);
      TerminatedTail(lines, tail);
    }
  }

  lemma TerminatedTail(lines: seq<string>, tail: seq<string>)
    requires lines != [] && tail == lines[1..]
    ensures Terminated(lines) == [lines[0] + "\n"] + Terminated(tail)
  {
  }

  lemma NoLineBreaksTail(lines: seq<string>, tail: seq<string>)
    requires lines != [] && tail == lines[1..] && NoLineBreaks(lines)
    ensures NoLineBreaks(tail) && forall j :: 0 <= j < |lines[0]| ==> lines[0][j] != '\n'
  {
    forall i | 0 <= i < |tail|
      ensures forall j :: 0 <= j < |tail[i]| ==> tail[i][j] != '\n'
    {
      assert tail[i] == lines[i + 1];
    }
  }

  /** A line without a line break, then a newline, is the first line. */
  lemma SplitFirstLine(line: string, rest: string)
    requires forall j :: 0 <= j < |line| ==> line[j] != '\n'
    ensures SplitLines(line + "\n" + rest) == [line + "\n"] + SplitLines(rest)
  {
    var text := line + "\n" + rest;
    LineLengthOfLine(line, rest);
    assert text[..|line| + 1] == line + "\n";
    assert text[|line| + 1..] == rest;
  }

  /** Saving the texts of records is writing each record with its newline. */
  lemma SavedTextIsWritten(rs: seq<HexRecord>)
    requires rs != []
    ensures SavedText(Rendered(rs)) == Written(rs)
  {
    JoinedIsWritten(rs);
  }

  lemma {:induction false} JoinedIsWritten(rs: seq<HexRecord>)
    requires rs != []
    ensures JoinLines(Rendered(rs)) + "\n" == Written(rs)
    decreases |rs|
  {
    var lines := Rendered(rs);
    if |rs| == 1 {
      assert rs[1..] == [];
    } else {
      assert lines[1..] == Rendered(rs[1..]);
      JoinedIsWritten(rs[1..]);
      assert JoinLines(lines) + "\n" == lines[0] + "\n" + (JoinLines(lines[1..]) + "\n");
    }
  }

  /** With no lines the file is a single newline, which reads as no records. */
  lemma EmptySaveReadsEmpty()
    ensures ReadHexFile(SplitLines(SavedText([]))) == Ok([])
  {
    var lines := SplitLines(SavedText([]));
    assert lines == ["\n"];
    assert Strip("\n") == [] by {
      StripFacts("\n");
    }
    assert StrippedLines(lines) == [[]];
  }

  /** generatehexfile (lines 114-178): the text of each generated record,
      in order. It returns no lines for a subtype it does not implement,
      raises exactly when an image starts before the end of the one listed
      before it and then names that image, ends with the end of file
      record's text, and what it returns, saved as the main program saves
      it and read with readHexFile, gives back the generated records. */
  function GenerateHexFile(entries: seq<Entry>, mode: int): (r: Result<seq<string>, LayoutError>)
    requires WithinAddressSpace(entries)
    ensures !SupportedMode(mode) ==> r == Ok([])
    ensures SupportedMode(mode) ==> (r.Ok? <==> Ordered(entries))
    ensures r.Err? ==>
      exists i :: 1 <= i < |entries| && entries[i].address < End(entries[i - 1])
                  && r.error == OutOfOrder(entries[i].address, End(entries[i - 1]))
    ensures SupportedMode(mode) && r.Ok? ==> |r.value| > 0 && r.value[|r.value| - 1] == ":00000001FF"
    ensures r.Ok? ==>
      && Generate(entries, mode, Overshoot).Ok?
      && ReadHexFile(SplitLines(SavedText(r.value))) == Ok(Generate(entries, mode, Overshoot).value)
  {
    if !SupportedMode(mode) then
      EmptySaveReadsEmpty();
      Ok([])
    else
      GenerateSucceedsWhenOrdered(entries, mode, Overshoot);
      GenerateFailureNamed(entries, mode, Overshoot);
      match Generate(entries, mode, Overshoot)
      case Err(e) => Err(e)
      case Ok(rs) =>
        GeneratedText(entries, mode, rs);
        Ok(Rendered(rs))
  }

  /** The text of generated records ends with the end of file record's
      text and, saved, reads back as those records. */
  lemma GeneratedText(entries: seq<Entry>, mode: int, rs: seq<HexRecord>)
    requires SupportedMode(mode) && WithinAddressSpace(entries)
    requires Generate(entries, mode, Overshoot) == Ok(rs)
    ensures |Rendered(rs)| > 0 && Rendered(rs)[|rs| - 1] == ":00000001FF"
    ensures ReadHexFile(SplitLines(SavedText(Rendered(rs)))) == Ok(rs)
  {
    GeneratedRecordShapes(entries, mode, Overshoot);
    SavedTextIsWritten(rs);
    ReadWrittenFile(rs);
    EndOfFileText();
  }
}
