/** Reading Intel HEX text back into records (loader/bin2hex.py, readHexFile). */
module HexReader {
  import opened Results
  import opened Hex
  import opened HexRecords

  /** Why a file is rejected. `InvalidHex` stands for the ValueError that
      `int(text, 16)` raises; it names the text, not the line. */
  datatype ReadError =
    | MissingStartCode(line: nat, found: char)
    | InvalidHex(text: string)
    | LengthMismatch(line: nat, actual: nat, expected: nat)
    | BadChecksum(calculated: Byte, given: int)

  /** The characters `str.strip()` removes. */
  predicate IsWhitespace(c: char) {
    var n := c as int;
    || 0x09 <= n <= 0x0D || 0x1C <= n <= 0x20 || n == 0x85 || n == 0xA0
    || n == 0x1680 || 0x2000 <= n <= 0x200A || n == 0x2028 || n == 0x2029
    || n == 0x202F || n == 0x205F || n == 0x3000
  }

  function TrimLeft(s: string): (t: string)
    ensures |t| <= |s|
    decreases |s|
  {
    if |s| > 0 && IsWhitespace(s[0]) then TrimLeft(s[1..]) else s
  }

  function TrimRight(s: string): (t: string)
    ensures |t| <= |s|
    decreases |s|
  {
    if |s| > 0 && IsWhitespace(s[|s| - 1]) then TrimRight(s[..|s| - 1]) else s
  }

  lemma {:induction false} TrimLeftFacts(s: string)
    ensures var t := TrimLeft(s);
      && t == s[|s| - |t|..]
      && (forall i :: 0 <= i < |s| - |t| ==> IsWhitespace(s[i]))
      && (|t| > 0 ==> !IsWhitespace(t[0]))
    decreases |s|
  {
    if |s| > 0 && IsWhitespace(s[0]) {
      TrimLeftFacts(s[1..]);
    }
  }

  lemma {:induction false} TrimRightFacts(s: string)
    ensures var t := TrimRight(s);
      && t == s[..|t|]
      && (forall i :: |t| <= i < |s| ==> IsWhitespace(s[i]))
      && (|t| > 0 ==> !IsWhitespace(t[|t| - 1]))
    decreases |s|
  {
    if |s| > 0 && IsWhitespace(s[|s| - 1]) {
      TrimRightFacts(s[..|s| - 1]);
    }
  }

  /** `line.strip()` (line 90). */
  function Strip(s: string): (t: string)
    ensures |t| <= |s|
  {
    TrimLeft(TrimRight(s))
  }

  /** What strip leaves: the piece of the line after its `lead` leading
      whitespace characters, with whitespace neither at its start nor at its
      end, everything cut off on either side being whitespace. */
  lemma StripFacts(s: string)
    ensures var t := Strip(s);
      var lead := |TrimRight(s)| - |t|;
      && 0 <= lead && lead + |t| <= |s|
      && t == s[lead..lead + |t|]
      && (forall i :: 0 <= i < lead ==> IsWhitespace(s[i]))
      && (forall i :: lead + |t| <= i < |s| ==> IsWhitespace(s[i]))
      && (|t| > 0 ==> !IsWhitespace(t[0]) && !IsWhitespace(t[|t| - 1]))
  {
    var right := TrimRight(s);
    var t := TrimLeft(right);
    TrimRightFacts(s);
    TrimLeftFacts(right);
    var lead := |right| - |t|;
    assert t == s[lead..lead + |t|];
    assert forall i :: 0 <= i < lead ==> s[i] == right[i];
    assert |t| > 0 ==> t[|t| - 1] == right[|right| - 1];
  }

  /** A line strips to nothing exactly when it is all whitespace: the
      reader's stop condition (lines 91-92). */
  lemma {:induction false} BlankIffAllWhitespace(s: string)
    ensures IsBlank(s) <==> forall i :: 0 <= i < |s| ==> IsWhitespace(s[i])
  {
    var right := TrimRight(s);
    TrimRightFacts(s);
    TrimLeftFacts(right);
    assert right == s[..|right|];
    assert IsBlank(s) <==> |right| == 0;
  }

  /** A line with no whitespace at either end, read with its newline, strips back to itself. */
  lemma {:induction false} StripLineBreak(line: string)
    requires |line| > 0 && !IsWhitespace(line[0]) && !IsWhitespace(line[|line| - 1])
    ensures Strip(line + "\n") == line
  {
    var s := line + "\n";
    assert s[..|s| - 1] == line;
    assert TrimRight(s) == TrimRight(line) == line;
  }

  /** Python's `s[i:j]` for non-negative bounds: both ends are clamped to the length. */
  function Slice(s: string, i: nat, j: nat): (t: string)
    ensures i <= j <= |s| ==> t == s[i..j]
    ensures |t| <= j - i || |t| == 0
    ensures |t| == if i < j && i < |s| then (if j <= |s| then j else |s|) - i else 0
    ensures forall k :: 0 <= k < |t| ==> t[k] == s[i + k]
  {
    if i >= |s| || j <= i then "" else s[i..if j <= |s| then j else |s|]
  }

  /** The `k`-th two-character group of `s`. */
  function Pair(s: string, k: nat): string
    requires 2 * k + 2 <= |s|
  {
    s[2 * k..2 * k + 2]
  }

  /** The data pairs, parsed left to right; the first bad pair raises (lines 103-107). */
  function ParseBytes(s: string): (r: Result<seq<Byte>, ReadError>)
    requires |s| % 2 == 0
    ensures r.Ok? <==> forall k :: 0 <= k < |s| / 2 ==> ParseHex(Pair(s, k)).Some?
    ensures r.Ok? ==> |r.value| == |s| / 2
    ensures r.Ok? ==> forall k :: 0 <= k < |r.value| ==> ParseHex(Pair(s, k)) == Some(r.value[k])
    ensures r.Err? ==> r.error.InvalidHex?
    decreases |s|
  {
    if |s| == 0 then Ok([])
    else
      var pair := s[..2];
      var tail := s[2..];
      PairsOfTail(s);
      match ParseHex(pair)
      case None => Err(InvalidHex(pair))
      case Some(b) =>
        ParseHexBound(pair);
        match ParseBytes(tail)
        case Err(e) => Err(e)
        case Ok(rest) => Ok([b] + rest)
  }

  /** The pairs after the first are the pairs of the rest of the text. */
  lemma PairsOfTail(s: string)
    requires |s| >= 2 && |s| % 2 == 0
    ensures s[..2] == Pair(s, 0)
    ensures forall k :: 0 <= k < |s[2..]| / 2 ==> Pair(s[2..], k) == Pair(s, k + 1)
    ensures forall k :: 1 <= k < |s| / 2 ==> Pair(s, k) == Pair(s[2..], k - 1)
  {
  }

  /** The three header fields of a line. */
  datatype Header = Header(count: Byte, address: Word, recordType: Byte)

  /** Lines 97-99: byte count, address and type, parsed in that order from
      Python slices (which come out short, not failing, on a short line). */
  function ParseHeader(line: string): (r: Result<Header, ReadError>)
    ensures r.Ok? <==> (ParseHex(Slice(line, 1, 3)).Some? && ParseHex(Slice(line, 3, 7)).Some?
                        && ParseHex(Slice(line, 7, 9)).Some?)
    ensures r.Err? ==> r.error.InvalidHex?
    ensures r.Ok? && |line| >= 9 ==>
      && Hex2(r.value.count) == UpperCase(line[1..3])
      && Hex4(r.value.address) == UpperCase(line[3..7])
      && Hex2(r.value.recordType) == UpperCase(line[7..9])
  {
    var countText, addressText, typeText := Slice(line, 1, 3), Slice(line, 3, 7), Slice(line, 7, 9);
    match ParseHex(countText)
    case None => Err(InvalidHex(countText))
    case Some(count) =>
      match ParseHex(addressText)
      case None => Err(InvalidHex(addressText))
      case Some(address) =>
        match ParseHex(typeText)
        case None => Err(InvalidHex(typeText))
        case Some(recordType) =>
          ParseHexBound(countText);
          ParseHexBound(addressText);
          ParseHexBound(typeText);
          if |line| >= 9 then
            Hex2OfParsed(countText);
            Hex4OfParsed(addressText);
            Hex2OfParsed(typeText);
            Ok(Header(count, address, recordType))
          else
            Ok(Header(count, address, recordType))
  }

  /** Lines 103-110 for a line of the announced length: the data pairs, the
      checksum field, and the constructor's checksum test. */
  function ParseBody(line: string, header: Header): (r: Result<HexRecord, ReadError>)
    requires |line| == 11 + 2 * header.count
    ensures r.Ok? ==> WellFormed(r.value) && |r.value.data| == header.count
    ensures r.Ok? ==> r.value.recordType == header.recordType && r.value.address == header.address
    ensures r.Ok? ==>
      && ParseBytes(line[9..|line| - 2]) == Ok(r.value.data)
      && ParseHex(line[|line| - 2..]) == Some(r.value.checksum)
    ensures r.Err? ==> r.error.InvalidHex? || r.error.BadChecksum?
    ensures r.Err? && r.error.BadChecksum? ==>
      && ParseBytes(line[9..|line| - 2]).Ok?
      && ParseHex(line[|line| - 2..]) == Some(r.error.given)
      && r.error.calculated == Checksum(header.recordType, header.address, ParseBytes(line[9..|line| - 2]).value)
  {
    match ParseBytes(line[9..|line| - 2])
    case Err(e) => Err(e)
    case Ok(data) =>
      var checksumText := line[|line| - 2..];
      match ParseHex(checksumText)
      case None => Err(InvalidHex(checksumText))
      case Some(given) =>
        match NewRecord(header.recordType, data, Some(given), header.address)
        case Err(ChecksumMismatch(calculated, g)) => Err(BadChecksum(calculated, g))
        case Ok(record) => Ok(record)
  }

  /** One stripped, non-empty line (lines 94-110): start code, the header
      fields, the line length, the data pairs, then the checksum, each
      check raising in that order. */
  function DecodeLine(line: string, lineNum: nat): (r: Result<HexRecord, ReadError>)
    requires |line| > 0
    ensures line[0] != ':' ==> r == Err(MissingStartCode(lineNum, line[0]))
    ensures line[0] == ':' && ParseHeader(line).Err? ==> r == Err(ParseHeader(line).error)
    ensures line[0] == ':' && ParseHeader(line).Ok? ==>
      var expected := 11 + 2 * ParseHeader(line).value.count;
      && (|line| != expected ==> r == Err(LengthMismatch(lineNum, |line|, expected)))
      && (|line| == expected ==> r == ParseBody(line, ParseHeader(line).value))
    ensures r.Ok? ==> WellFormed(r.value) && |line| == 11 + 2 * |r.value.data|
  {
    if line[0] != ':' then Err(MissingStartCode(lineNum, line[0]))
    else
      match ParseHeader(line)
      case Err(e) => Err(e)
      case Ok(header) =>
        if |line| != 11 + 2 * header.count then Err(LengthMismatch(lineNum, |line|, 11 + 2 * header.count))
        else ParseBody(line, header)
  }

  /** A line the reader stops at (lines 90-92). */
  predicate IsBlank(line: string) {
    |Strip(line)| == 0
  }

  /** Every line stripped, as the loop does before looking at it. */
  function StrippedLines(lines: seq<string>): (r: seq<string>)
    ensures |r| == |lines|
  {
    seq(|lines|, i requires 0 <= i < |lines| => Strip(lines[i]))
  }

  /** Index of the first empty line, or the number of lines. */
  function FirstBlank(lines: seq<string>): (k: nat)
    ensures k <= |lines|
    ensures forall i :: 0 <= i < k ==> |lines[i]| > 0
    ensures k < |lines| ==> |lines[k]| == 0
  {
    if |lines| == 0 || |lines[0]| == 0 then 0
    else
      var tail := lines[1..];
      var k := FirstBlank(tail);
      assert forall i :: 0 <= i < k ==> tail[i] == lines[i + 1];
      1 + k
  }

  /** What the loop makes of the `i`-th stripped line, numbered from `lineNum + 1`. */
  function LineResult(lines: seq<string>, lineNum: nat, i: nat): Result<HexRecord, ReadError>
    requires i < |lines| && |lines[i]| > 0
  {
    DecodeLine(lines[i], lineNum + i + 1)
  }

  /** The loop of readHexFile over stripped lines, from line number `lineNum` on. */
  function ReadFrom(lines: seq<string>, lineNum: nat): (r: Result<seq<HexRecord>, ReadError>)
    ensures r.Ok? ==> |r.value| == FirstBlank(lines)
    decreases |lines|
  {
    if |lines| == 0 || |lines[0]| == 0 then Ok([])
    else
      match LineResult(lines, lineNum, 0)
      case Err(e) => Err(e)
      case Ok(record) =>
        match ReadFrom(lines[1..], lineNum + 1)
        case Err(e) => Err(e)
        case Ok(rest) => Ok([record] + rest)
  }

  lemma LineResultShift(lines: seq<string>, lineNum: nat, i: nat)
    requires i + 1 < |lines| && |lines[i + 1]| > 0
    ensures LineResult(lines[1..], lineNum + 1, i) == LineResult(lines, lineNum, i + 1)
  {
    assert lines[1..][i] == lines[i + 1];
  }

  /** The loop returns one record per line before the first blank line,
      each the decoding of its line, and fails exactly when one of those
      lines fails, with the error of the first that does. */
  lemma ReadFromLines(lines: seq<string>, lineNum: nat)
    ensures var r, k := ReadFrom(lines, lineNum), FirstBlank(lines);
      && (r.Ok? <==> forall i :: 0 <= i < k ==> LineResult(lines, lineNum, i).Ok?)
      && (r.Ok? ==> forall i :: 0 <= i < k ==> LineResult(lines, lineNum, i) == Ok(r.value[i]))
      && (r.Err? ==> exists i :: 0 <= i < k && LineResult(lines, lineNum, i) == Err(r.error)
                       && forall j :: 0 <= j < i ==> LineResult(lines, lineNum, j).Ok?)
  {
    var r := ReadFrom(lines, lineNum);
    if r.Ok? {
      ReadFromValues(lines, lineNum);
    } else {
      var i := ReadFromFirstError(lines, lineNum);
    }
  }

  /** The lines after the first, numbered on from the next line number,
      are the same lines as seen from the whole sequence. */
  lemma ShiftLines(lines: seq<string>, lineNum: nat, tail: seq<string>, next: nat)
    requires |lines| > 0 && |lines[0]| > 0 && tail == lines[1..] && next == lineNum + 1
    ensures FirstBlank(lines) == FirstBlank(tail) + 1
    ensures forall i :: 0 <= i < FirstBlank(tail) ==> LineResult(tail, next, i) == LineResult(lines, lineNum, i + 1)
  {
    forall i | 0 <= i < FirstBlank(tail)
      ensures LineResult(tail, next, i) == LineResult(lines, lineNum, i + 1)
    {
      LineResultShift(lines, lineNum, i);
    }
  }

  /** A successful loop holds each line's record, in order. */
  lemma {:induction false} ReadFromValues(lines: seq<string>, lineNum: nat)
    requires ReadFrom(lines, lineNum).Ok?
    ensures var r, k := ReadFrom(lines, lineNum), FirstBlank(lines);
      forall i :: 0 <= i < k ==> LineResult(lines, lineNum, i) == Ok(r.value[i])
    decreases |lines|
  {
    if |lines| > 0 && |lines[0]| > 0 {
      var tail, next := lines[1..], lineNum + 1;
      var r, rest := ReadFrom(lines, lineNum), ReadFrom(tail, next);
      ShiftLines(lines, lineNum, tail, next);
      ReadFromValues(tail, next);
      assert r.value == [r.value[0]] + rest.value;
      forall i | 0 <= i < FirstBlank(lines)
        ensures LineResult(lines, lineNum, i) == Ok(r.value[i])
      {
        if i > 0 {
          assert LineResult(tail, next, i - 1) == Ok(rest.value[i - 1]);
        }
      }
    }
  }

  /** A failed loop stops at the first line that fails, with its error. */
  lemma {:induction false} ReadFromFirstError(lines: seq<string>, lineNum: nat) returns (i: nat)
    requires ReadFrom(lines, lineNum).Err?
    ensures i < FirstBlank(lines) && LineResult(lines, lineNum, i) == Err(ReadFrom(lines, lineNum).error)
    ensures forall j :: 0 <= j < i ==> LineResult(lines, lineNum, j).Ok?
    decreases |lines|
  {
    var tail, next := lines[1..], lineNum + 1;
    if LineResult(lines, lineNum, 0).Err? {
      i := 0;
    } else {
      ShiftLines(lines, lineNum, tail, next);
      assert ReadFrom(lines, lineNum).error == ReadFrom(tail, next).error;
      var j := ReadFromFirstError(tail, next);
      OkPrefixShift(lines, lineNum, tail, next, j);
      i := j + 1;
    }
  }

  lemma OkPrefixShift(lines: seq<string>, lineNum: nat, tail: seq<string>, next: nat, j: nat)
    requires |lines| > 0 && |lines[0]| > 0 && tail == lines[1..] && next == lineNum + 1
    requires j < FirstBlank(tail) && LineResult(lines, lineNum, 0).Ok?
    requires forall m :: 0 <= m < j ==> LineResult(tail, next, m).Ok?
    ensures forall m :: 0 <= m < j + 1 ==> LineResult(lines, lineNum, m).Ok?
  {
    ShiftLines(lines, lineNum, tail, next);
    forall m | 0 <= m < j + 1
      ensures LineResult(lines, lineNum, m).Ok?
    {
      if m > 0 {
        assert LineResult(tail, next, m - 1).Ok?;
      }
    }
  }

  /** readHexFile (lines 85-112) over the lines the stream yields. */
  function ReadHexFile(lines: seq<string>): (r: Result<seq<HexRecord>, ReadError>)
    ensures r.Ok? ==> |r.value| == FirstBlank(StrippedLines(lines)) <= |lines|
  {
    ReadFrom(StrippedLines(lines), 0)
  }

  /** readHexFile's promise, line by line: with `k` the index of the first
      blank line, success means exactly `k` records, the `i`-th being what
      the `i`-th line (stripped, numbered from 1) decodes to, and failure
      carries the error of the first line before `k` that is rejected. */
  lemma ReadHexFileLines(lines: seq<string>)
    ensures var r, s := ReadHexFile(lines), StrippedLines(lines);
      var k := FirstBlank(s);
      && (r.Ok? <==> forall i :: 0 <= i < k ==> DecodeLine(s[i], i + 1).Ok?)
      && (r.Ok? ==> forall i :: 0 <= i < k ==> DecodeLine(s[i], i + 1) == Ok(r.value[i]))
      && (r.Err? ==> exists i :: (0 <= i < k && DecodeLine(s[i], i + 1) == Err(r.error)
            && forall j :: 0 <= j < i ==> DecodeLine(s[j], j + 1).Ok?))
  {
    var s := StrippedLines(lines);
    ReadFromLines(s, 0);
    LineResultsDecode(s);
  }

  lemma LineResultsDecode(s: seq<string>)
    ensures forall i :: 0 <= i < FirstBlank(s) ==> LineResult(s, 0, i) == DecodeLine(s[i], i + 1)
  {
  }

  /** Every record readHexFile returns is well formed, and written back it
      gives its line (stripped) in upper case. */
  lemma ReadHexFileRecords(lines: seq<string>)
    requires ReadHexFile(lines).Ok?
    ensures var r, s := ReadHexFile(lines).value, StrippedLines(lines);
      forall i :: 0 <= i < |r| ==> WellFormed(r[i]) && Render(r[i]) == UpperCase(s[i])
  {
    var r, s := ReadHexFile(lines).value, StrippedLines(lines);
    ReadHexFileLines(lines);
    forall i | 0 <= i < |r|
      ensures WellFormed(r[i]) && Render(r[i]) == UpperCase(s[i])
    {
      DecodeThenRender(s[i], i + 1);
    }
  }

  lemma {:induction false} UpperCaseAppend(a: string, b: string)
    ensures UpperCase(a + b) == UpperCase(a) + UpperCase(b)
  {
  }

  lemma {:induction false} UpperCaseSlice(s: string, i: nat, j: nat)
    requires i <= j <= |s|
    ensures UpperCase(s)[i..j] == UpperCase(s[i..j])
  {
  }

  /** Upper-casing leaves a record's text unchanged. */
  lemma {:induction false} RenderIsUpperCase(r: HexRecord)
    ensures UpperCase(Render(r)) == Render(r)
  {
    RenderLayout(r);
    var s := Render(r);
    assert forall i :: 0 <= i < |s| ==> UpperHex(s[i]) == s[i] by {
      forall i | 0 <= i < |s|
        ensures UpperHex(s[i]) == s[i]
      {
        if i > 0 {
          assert IsUpperHexDigit(s[i]);
        }
      }
    }
  }

  /** The data text of a record's line, read back pair by pair. */
  lemma {:induction false} ParseBytesOfHexBytes(s: string, data: seq<Byte>)
    requires UpperCase(s) == HexBytes(data)
    ensures |s| % 2 == 0 && ParseBytes(s) == Ok(data)
  {
    HexBytesDigits(data);
    assert |s| == 2 * |data|;
    forall k | 0 <= k < |data|
      ensures ParseHex(Pair(s, k)) == Some(data[k])
    {
      UpperCaseSlice(s, 2 * k, 2 * k + 2);
      ParseHexIgnoresCase(s[2 * k..2 * k + 2]);
      ParseHex2(data[k]);
    }
    ParseBytesOfPairs(s, data);
  }

  /** Text whose pairs read as the bytes of `data` parses to `data`. */
  lemma ParseBytesOfPairs(s: string, data: seq<Byte>)
    requires |s| == 2 * |data|
    requires forall k :: 0 <= k < |data| ==> ParseHex(Pair(s, k)) == Some(data[k])
    ensures ParseBytes(s) == Ok(data)
  {
    var r := ParseBytes(s);
    assert r.Ok?;
    assert r.value == data;
  }

  /** The data bytes written back give the data text in upper case. */
  lemma {:induction false} HexBytesOfParsed(s: string, data: seq<Byte>)
    requires |s| % 2 == 0 && ParseBytes(s) == Ok(data)
    ensures HexBytes(data) == UpperCase(s)
  {
    var h := HexBytes(data);
    var u := UpperCase(s);
    forall i | 0 <= i < |s|
      ensures h[i] == u[i]
    {
      var k := i / 2;
      PairOfParsed(s, data, k);
      SameChar(h, u, k, i);
    }
  }

  /** Two texts that agree on a pair agree on both its characters. */
  lemma SameChar(h: string, u: string, k: nat, i: nat)
    requires 2 * k <= i < 2 * k + 2 <= |h| && 2 * k + 2 <= |u|
    requires h[2 * k..2 * k + 2] == u[2 * k..2 * k + 2]
    ensures h[i] == u[i]
  {
    assert h[i] == h[2 * k..2 * k + 2][i - 2 * k];
    assert u[i] == u[2 * k..2 * k + 2][i - 2 * k];
  }

  lemma PairOfParsed(s: string, data: seq<Byte>, k: nat)
    requires |s| % 2 == 0 && ParseBytes(s) == Ok(data) && k < |data|
    ensures HexBytes(data)[2 * k..2 * k + 2] == UpperCase(s)[2 * k..2 * k + 2]
  {
    HexBytesDigits(data);
    Hex2OfParsed(Pair(s, k));
    UpperCaseSlice(s, 2 * k, 2 * k + 2);
  }

  /** A line that reads as a record's text up to letter case has that
      record's header. */
  lemma HeaderOfText(line: string, r: HexRecord)
    requires UpperCase(line) == Render(r)
    ensures ParseHeader(line) == Ok(Header(|r.data|, r.address, r.recordType))
  {
    var s := Render(r);
    RenderLayout(r);
    assert Slice(line, 1, 3) == line[1..3];
    assert Slice(line, 3, 7) == line[3..7];
    assert Slice(line, 7, 9) == line[7..9];
    SliceIgnoresCase(line, s, 1, 3);
    SliceIgnoresCase(line, s, 3, 7);
    SliceIgnoresCase(line, s, 7, 9);
  }

  lemma SliceIgnoresCase(line: string, s: string, i: nat, j: nat)
    requires UpperCase(line) == s && i <= j <= |line|
    ensures ParseHex(line[i..j]) == ParseHex(s[i..j])
  {
    UpperCaseSlice(line, i, j);
    ParseHexIgnoresCase(line[i..j]);
  }

  /** The data and checksum fields of such a line, and the constructor's verdict on them. */
  lemma BodyOfText(line: string, r: HexRecord)
    requires UpperCase(line) == Render(r)
    ensures |line| == 11 + 2 * |r.data|
    ensures WellFormed(r) ==> ParseBody(line, Header(|r.data|, r.address, r.recordType)) == Ok(r)
    ensures !WellFormed(r) ==>
      ParseBody(line, Header(|r.data|, r.address, r.recordType))
        == Err(BadChecksum(Checksum(r.recordType, r.address, r.data), r.checksum))
  {
    BodyFields(line, r);
    if WellFormed(r) {
      WellFormedBody(line, r);
    } else {
      ChecksumMismatchOf(r);
    }
  }

  lemma WellFormedBody(line: string, r: HexRecord)
    requires |line| == 11 + 2 * |r.data| && WellFormed(r)
    requires ParseBytes(line[9..|line| - 2]) == Ok(r.data)
    requires ParseHex(line[|line| - 2..]) == Some(r.checksum)
    ensures ParseBody(line, Header(|r.data|, r.address, r.recordType)) == Ok(r)
  {
    WireSum(r);
    assert NewRecord(r.recordType, r.data, Some(r.checksum), r.address) == Ok(r);
  }

  lemma BodyFields(line: string, r: HexRecord)
    requires UpperCase(line) == Render(r)
    ensures |line| == 11 + 2 * |r.data|
    ensures ParseBytes(line[9..|line| - 2]) == Ok(r.data)
    ensures ParseHex(line[|line| - 2..]) == Some(r.checksum)
  {
    BodyData(line, r);
    BodyChecksum(line, r);
  }

  lemma BodyData(line: string, r: HexRecord)
    requires UpperCase(line) == Render(r)
    ensures |line| == 11 + 2 * |r.data|
    ensures ParseBytes(line[9..|line| - 2]) == Ok(r.data)
  {
    var s := Render(r);
    var n := |line|;
    assert s[9..n - 2] == HexBytes(r.data);
    UpperCaseSlice(line, 9, n - 2);
    ParseBytesOfHexBytes(line[9..n - 2], r.data);
  }

  lemma BodyChecksum(line: string, r: HexRecord)
    requires UpperCase(line) == Render(r)
    ensures |line| == 11 + 2 * |r.data|
    ensures ParseHex(line[|line| - 2..]) == Some(r.checksum)
  {
    var s := Render(r);
    var n := |line|;
    assert s[n - 2..n] == Hex2(r.checksum);
    ParseHex2(r.checksum);
    SliceIgnoresCase(line, s, n - 2, n);
    assert line[n - 2..] == line[n - 2..n];
  }

  lemma ChecksumMismatchOf(r: HexRecord)
    requires !WellFormed(r)
    ensures NewRecord(r.recordType, r.data, Some(r.checksum), r.address)
      == Err(ChecksumMismatch(Checksum(r.recordType, r.address, r.data), r.checksum))
  {
    WireSum(r);
  }

  /** What the reader makes of any line that reads as a record's text up to
      letter case: that record when its checksum closes the byte sum, and a
      checksum error naming the calculated and the written value otherwise. */
  lemma DecodeRenderedText(line: string, lineNum: nat, r: HexRecord)
    requires UpperCase(line) == Render(r)
    ensures |line| > 0
    ensures WellFormed(r) ==> DecodeLine(line, lineNum) == Ok(r)
    ensures !WellFormed(r) ==> DecodeLine(line, lineNum) == Err(BadChecksum(Checksum(r.recordType, r.address, r.data), r.checksum))
  {
    assert |line| == |Render(r)|;
    assert line[0] == ':' by {
      assert UpperHex(line[0]) == Render(r)[0];
    }
    HeaderOfText(line, r);
    BodyOfText(line, r);
  }

  /** A well-formed record's text reads back as that record: the codec round trip. */
  lemma RenderThenDecode(r: HexRecord, lineNum: nat)
    requires WellFormed(r)
    ensures DecodeLine(Render(r), lineNum) == Ok(r)
  {
    RenderIsUpperCase(r);
    DecodeRenderedText(Render(r), lineNum, r);
  }

  /** Whatever the reader accepts is a well-formed record whose text is the
      line in upper case. */
  lemma {:induction false} DecodeThenRender(line: string, lineNum: nat)
    requires |line| > 0 && DecodeLine(line, lineNum).Ok?
    ensures WellFormed(DecodeLine(line, lineNum).value)
    ensures Render(DecodeLine(line, lineNum).value) == UpperCase(line)
  {
    var r := DecodeLine(line, lineNum).value;
    DecodedFields(line, lineNum);
    UpperCaseFields(line);
    assert UpperCase(line[..1]) == ":";
    assert Render(r) == ":" + Hex2(|r.data|) + Hex4(r.address) + Hex2(r.recordType) + HexBytes(r.data) + Hex2(r.checksum);
  }

  /** Each field of an accepted line, upper-cased, is the text of the
      decoded record's field. */
  lemma DecodedFields(line: string, lineNum: nat)
    requires |line| > 0 && DecodeLine(line, lineNum).Ok?
    ensures var r := DecodeLine(line, lineNum).value;
      && line[0] == ':' && |line| == 11 + 2 * |r.data|
      && Hex2(|r.data|) == UpperCase(line[1..3])
      && Hex4(r.address) == UpperCase(line[3..7])
      && Hex2(r.recordType) == UpperCase(line[7..9])
      && HexBytes(r.data) == UpperCase(line[9..|line| - 2])
      && Hex2(r.checksum) == UpperCase(line[|line| - 2..])
  {
    var r := DecodeLine(line, lineNum).value;
    assert Slice(line, 1, 3) == line[1..3];
    assert Slice(line, 3, 7) == line[3..7];
    assert Slice(line, 7, 9) == line[7..9];
    Hex2OfParsed(line[1..3]);
    Hex4OfParsed(line[3..7]);
    Hex2OfParsed(line[7..9]);
    HexBytesOfParsed(line[9..|line| - 2], r.data);
    Hex2OfParsed(line[|line| - 2..]);
  }

  /** Upper-casing a line is upper-casing each of its record fields. */
  lemma UpperCaseFields(line: string)
    requires |line| >= 11
    ensures UpperCase(line) == UpperCase(line[..1]) + UpperCase(line[1..3]) + UpperCase(line[3..7])
      + UpperCase(line[7..9]) + UpperCase(line[9..|line| - 2]) + UpperCase(line[|line| - 2..])
  {
    assert line == line[..1] + line[1..3] + line[3..7] + line[7..9] + line[9..|line| - 2] + line[|line| - 2..];
    UpperCaseAppend(line[..1] + line[1..3] + line[3..7] + line[7..9] + line[9..|line| - 2], line[|line| - 2..]);
    UpperCaseAppend(line[..1] + line[1..3] + line[3..7] + line[7..9], line[9..|line| - 2]);
    UpperCaseAppend(line[..1] + line[1..3] + line[3..7], line[7..9]);
    UpperCaseAppend(line[..1] + line[1..3], line[3..7]);
    UpperCaseAppend(line[..1], line[1..3]);
  }

  /** The reader accepts a line exactly when it is, up to letter case, the
      text of a well-formed record, and then returns that record. */
  lemma DecodeLineExactly(line: string, lineNum: nat, r: HexRecord)
    requires |line| > 0
    ensures DecodeLine(line, lineNum) == Ok(r) <==> WellFormed(r) && Render(r) == UpperCase(line)
  {
    if DecodeLine(line, lineNum) == Ok(r) {
      DecodeThenRender(line, lineNum);
    }
    if WellFormed(r) && Render(r) == UpperCase(line) {
      DecodeRenderedText(line, lineNum, r);
    }
  }

  /** Changing the written checksum of a well-formed record's text makes the
      reader raise the checksum error with both values. */
  lemma ChecksumCorruptionDetected(r: HexRecord, c: Byte, lineNum: nat)
    requires WellFormed(r) && c != r.checksum
    ensures DecodeLine(Render(r.(checksum := c)), lineNum) == Err(BadChecksum(r.checksum, c))
  {
    var bad := r.(checksum := c);
    WireSum(r);
    WireSum(bad);
    ChecksumIsUnique(r.recordType, r.address, r.data, r.checksum);
    if WellFormed(bad) {
      ChecksumIsUnique(r.recordType, r.address, r.data, c);
    }
    RenderIsUpperCase(bad);
    DecodeRenderedText(Render(bad), lineNum, bad);
  }

  /** Cutting characters off the end of a record's text, header intact,
      makes the reader raise the length error. */
  lemma TruncationDetected(r: HexRecord, cut: nat, lineNum: nat)
    requires 1 <= cut <= 2 + 2 * |r.data|
    ensures var s := Render(r);
      DecodeLine(s[..|s| - cut], lineNum) == Err(LengthMismatch(lineNum, |s| - cut, |s|))
  {
    var s := Render(r);
    assert |s| == 11 + 2 * |r.data| && s[0] == ':';
    var n := |s| - cut;
    var t := s[..n];
    PrefixHeader(r, n);
    assert t[0] == ':';
    LengthErrorOf(t, lineNum, Header(|r.data|, r.address, r.recordType));
  }

  /** A line whose header announces another length fails with the length error. */
  lemma LengthErrorOf(line: string, lineNum: nat, header: Header)
    requires |line| > 0 && line[0] == ':' && ParseHeader(line) == Ok(header)
    requires |line| != 11 + 2 * header.count
    ensures DecodeLine(line, lineNum) == Err(LengthMismatch(lineNum, |line|, 11 + 2 * header.count))
  {
  }

  /** Any prefix of a record's text of at least nine characters carries
      the record's header. */
  lemma PrefixHeader(r: HexRecord, n: nat)
    requires 9 <= n <= |Render(r)|
    ensures ParseHeader(Render(r)[..n]) == Ok(Header(|r.data|, r.address, r.recordType))
  {
    var s := Render(r);
    RenderIsUpperCase(r);
    HeaderOfText(s, r);
    HeaderOfPrefix(s[..n], s);
  }

  /** The header is read from the first nine characters only. */
  lemma HeaderOfPrefix(t: string, s: string)
    requires 9 <= |t| <= |s| && t == s[..|t|]
    ensures ParseHeader(t) == ParseHeader(s)
  {
    assert Slice(t, 1, 3) == Slice(s, 1, 3);
    assert Slice(t, 3, 7) == Slice(s, 3, 7);
    assert Slice(t, 7, 9) == Slice(s, 7, 9);
  }

  /** Records' texts, one per line, read back as exactly those records. */
  lemma {:induction false} ReadRenderedLines(rs: seq<HexRecord>, lineNum: nat)
    requires forall i :: 0 <= i < |rs| ==> WellFormed(rs[i])
    ensures ReadFrom(Rendered(rs), lineNum) == Ok(rs)
    decreases |rs|
  {
    var lines := Rendered(rs);
    if |rs| > 0 {
      RenderThenDecode(rs[0], lineNum + 1);
      assert |lines[0]| > 0;
      assert LineResult(lines, lineNum, 0) == Ok(rs[0]);
      assert lines[1..] == Rendered(rs[1..]);
      ReadRenderedLines(rs[1..], lineNum + 1);
      assert ReadFrom(lines, lineNum) == Ok([rs[0]] + rs[1..]);
      assert [rs[0]] + rs[1..] == rs;
    }
  }

  /** The lines of a stream to which each record was written with its newline. */
  function WrittenLines(rs: seq<HexRecord>): (lines: seq<string>)
    ensures |lines| == |rs| && forall i :: 0 <= i < |rs| ==> lines[i] == Render(rs[i]) + "\n"
  {
    seq(|rs|, i requires 0 <= i < |rs| => Render(rs[i]) + "\n")
  }

  /** The lines a stream yields when each record was written with its
      newline read back as exactly those records. */
  lemma ReadWrittenLines(rs: seq<HexRecord>)
    requires forall i :: 0 <= i < |rs| ==> WellFormed(rs[i])
    ensures ReadHexFile(WrittenLines(rs)) == Ok(rs)
  {
    var lines := WrittenLines(rs);
    forall i | 0 <= i < |rs|
      ensures Strip(lines[i]) == Render(rs[i])
    {
      var s := Render(rs[i]);
      RenderLayout(rs[i]);
      assert IsUpperHexDigit(s[|s| - 1]);
      StripLineBreak(s);
    }
    assert StrippedLines(lines) == Rendered(rs);
    ReadRenderedLines(rs, 0);
  }

  /** Length of the first line of a non-empty text, its "\n" included. */
  function LineLength(text: string): (k: nat)
    requires |text| > 0
    ensures 0 < k <= |text|
    ensures forall i :: 0 <= i < k - 1 ==> text[i] != '\n'
    ensures k == |text| || text[k - 1] == '\n'
    decreases |text|
  {
    if text[0] == '\n' || |text| == 1 then 1 else 1 + LineLength(text[1..])
  }

  /** The lines iterating over a text stream yields: each keeps its "\n";
      the last lacks it when the text does not end with one. */
  function SplitLines(text: string): (lines: seq<string>)
    ensures Concat(lines) == text
    ensures forall i :: 0 <= i < |lines| ==> IsLine(lines[i])
    ensures forall i :: 0 <= i < |lines| - 1 ==> EndsLine(lines[i])
    decreases |text|
  {
    if |text| == 0 then [] else
      var k := LineLength(text);
      var rest := SplitLines(text[k..]);
      var lines := [text[..k]] + rest;
      assert lines[1..] == rest;
      assert text == text[..k] + text[k..];
      lines
  }

  /** A piece of text a line iteration yields: non-empty, with a "\n" at
      most as its last character. */
  predicate IsLine(line: string) {
    |line| > 0 && forall j :: 0 <= j < |line| - 1 ==> line[j] != '\n'
  }

  predicate EndsLine(line: string) {
    |line| > 0 && line[|line| - 1] == '\n'
  }

  /** The pieces of a text put back together. */
  function Concat(pieces: seq<string>): string {
    if pieces == [] then "" else pieces[0] + Concat(pieces[1..])
  }

  lemma {:induction false} LineLengthOfLine(line: string, rest: string)
    requires forall i :: 0 <= i < |line| ==> line[i] != '\n'
    ensures LineLength(line + "\n" + rest) == |line| + 1
    decreases |line|
  {
    if |line| > 0 {
      assert (line + "\n" + rest)[1..] == line[1..] + "\n" + rest;
      LineLengthOfLine(line[1..], rest);
    }
  }

  /** The text left by calling `write` on each record in turn. */
  function Written(rs: seq<HexRecord>): string {
    if rs == [] then "" else Render(rs[0]) + "\n" + Written(rs[1..])
  }

  /** A file made by writing well-formed records one after another reads
      back as those records, in order. */
  lemma {:induction false} ReadWrittenFile(rs: seq<HexRecord>)
    requires forall i :: 0 <= i < |rs| ==> WellFormed(rs[i])
    ensures ReadHexFile(SplitLines(Written(rs))) == Ok(rs)
  {
    WrittenSplits(rs);
    ReadWrittenLines(rs);
  }

  lemma {:induction false} WrittenSplits(rs: seq<HexRecord>)
    ensures SplitLines(Written(rs)) == WrittenLines(rs)
    decreases |rs|
  {
    if rs != [] {
      var s := Render(rs[0]);
      RenderHasNoLineBreak(rs[0]);
      var text := Written(rs);
      LineLengthOfLine(s, Written(rs[1..]));
      assert text[..|s| + 1] == s + "\n";
      assert text[|s| + 1..] == Written(rs[1..]);
      WrittenSplits(rs[1..]);
    }
  }

  /** A record's text holds no line break. */
  lemma RenderHasNoLineBreak(r: HexRecord)
    ensures forall i :: 0 <= i < |Render(r)| ==> Render(r)[i] != '\n'
  {
    RenderLayout(r);
  }

  /** Lines after the first blank one are never looked at. */
  lemma {:induction false} ReadStopsAtBlank(lines: seq<string>)
    ensures var k := FirstBlank(StrippedLines(lines));
      ReadHexFile(lines) == ReadHexFile(lines[..k])
  {
    var s := StrippedLines(lines);
    var k := FirstBlank(s);
    assert StrippedLines(lines[..k]) == s[..k];
    ReadFromStopsAtBlank(s, 0);
  }

  lemma {:induction false} ReadFromStopsAtBlank(lines: seq<string>, lineNum: nat)
    ensures ReadFrom(lines, lineNum) == ReadFrom(lines[..FirstBlank(lines)], lineNum)
    decreases |lines|
  {
    var k := FirstBlank(lines);
    if |lines| > 0 && |lines[0]| > 0 {
      assert lines[..k][0] == lines[0];
      assert lines[..k][1..] == lines[1..][..FirstBlank(lines[1..])];
      ReadFromStopsAtBlank(lines[1..], lineNum + 1);
    }
  }
}
