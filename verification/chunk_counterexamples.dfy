/** Where the chunk formula of lines 163-164 goes wrong: past the window a
    record takes the overshoot instead of the remainder of the window, so a
    data record can run over a 64 KB boundary. A linear loader still places
    such bytes right; a segmented loader wraps them to the start of the
    segment. */
module ChunkCounterexamples {
  import opened Results
  import opened Hex
  import opened HexRecords
  import opened Layout
  import opened LoadImage
  import opened LayoutProofs

  /** An image in the first window that fits one chunk is one data record. */
  lemma SingleStep(mode: int, rule: ChunkRule, e: Entry)
    requires SupportedMode(mode) && e.address < WINDOW && 0 < |e.contents|
    requires |e.contents| <= ChunkSize(rule, mode, e.address)
    ensures EmitStep(mode, rule, Cursor(e.address, 0), e.contents)
      == Step([MakeRecord(DATA, e.contents, e.address)], Cursor(End(e), 0), |e.contents|)
  {
    var c := Cursor(e.address, 0);
    assert EnterWindow(mode, c) == Emitted([], c);
    assert e.contents[..|e.contents|] == e.contents;
  }

  lemma SingleFile(mode: int, rule: ChunkRule, e: Entry)
    requires SupportedMode(mode) && e.address < WINDOW && 0 < |e.contents|
    requires |e.contents| <= ChunkSize(rule, mode, e.address)
    ensures EmitFile(mode, rule, Cursor(e.address, 0), e.contents)
      == Emitted([MakeRecord(DATA, e.contents, e.address)], Cursor(End(e), 0))
  {
    SingleStep(mode, rule, e);
    assert e.contents[|e.contents|..] == [];
    assert [MakeRecord(DATA, e.contents, e.address)] + [] == [MakeRecord(DATA, e.contents, e.address)];
  }

  /** One image alone is laid out as that image's placement. */
  lemma LayoutOfOne(mode: int, rule: ChunkRule, c: Cursor, e: Entry)
    requires SupportedMode(mode) && End(e) <= LIMIT
    ensures LayoutFrom(mode, rule, c, [e]) == PlaceEntry(mode, rule, c, e)
  {
    assert [e][0] == e && [e][1..] == [];
    var first := PlaceEntry(mode, rule, c, e);
    if first.Ok? {
      assert first.value.records + [] == first.value.records;
    }
  }

  lemma SingleLayout(mode: int, rule: ChunkRule, e: Entry)
    requires SupportedMode(mode) && e.address < WINDOW && 0 < |e.contents|
    requires |e.contents| <= ChunkSize(rule, mode, e.address)
    ensures LayoutFrom(mode, rule, Cursor(0, 0), [e])
      == Ok(Emitted([MakeRecord(DATA, e.contents, e.address)], Cursor(End(e), 0)))
  {
    var c := Cursor(0, 0);
    assert MoveTo(c, e.address) == Cursor(e.address, 0);
    SingleFile(mode, rule, e);
    LayoutOfOne(mode, rule, c, e);
  }

  /** Such an image alone gives one data record and the end of file record. */
  lemma SingleRecord(mode: int, rule: ChunkRule, e: Entry)
    requires SupportedMode(mode) && e.address < WINDOW && 0 < |e.contents|
    requires |e.contents| <= ChunkSize(rule, mode, e.address)
    ensures Generate([e], mode, rule) == Ok([MakeRecord(DATA, e.contents, e.address), EndOfFileRecord()])
  {
    var record := MakeRecord(DATA, e.contents, e.address);
    SingleLayout(mode, rule, e);
    GenerateValue([e], mode, rule);
    assert [record] + [EndOfFileRecord()] == [record, EndOfFileRecord()];
  }

  /** An image starting in the first window, past whose end the
      overshoot chunk still reaches (five bytes at 0xFFFE in mode 4, say),
      is written as one data record across the window boundary. */
  lemma SourceRecordCrossesWindow(e: Entry)
    requires e.address < WINDOW < End(e) && |e.contents| <= ChunkSize(Overshoot, 4, e.address)
    ensures var rs := Generate([e], 4, Overshoot);
      && rs == Ok([MakeRecord(DATA, e.contents, e.address), EndOfFileRecord()])
      && rs.value[0].recordType == DATA
      && rs.value[0].address + |rs.value[0].data| > WINDOW
  {
    SingleRecord(4, Overshoot, e);
  }

  /** The same in mode 2 (three bytes at 0xFFFE, say): a segmented loader
      puts the first byte past the window at address 0 instead of 0x10000. */
  lemma SourceChunkMisplacesInMode2(e: Entry)
    requires e.address < WINDOW < End(e) && |e.contents| <= ChunkSize(Overshoot, 2, e.address)
    ensures var k := WINDOW - e.address;
      && Generate([e], 2, Overshoot).Ok?
      && Load(Segmented, Generate([e], 2, Overshoot).value)[k] == Cell(0, e.contents[k])
      && EntryCells([e])[k] == Cell(WINDOW, e.contents[k])
  {
    var k := WINDOW - e.address;
    var record := MakeRecord(DATA, e.contents, e.address);
    SingleRecord(2, Overshoot, e);
    var b := Base(Segmented, 0);
    LoadIgnoresEndOfFile(Segmented, [record]);
    assert [record][1..] == [];
    assert LoadFrom(b, [record]) == RecordCells(b, record) + [];
    assert RecordCells(b, record)[k] == Cell(CellAddress(b, WINDOW), e.contents[k]);
    assert [e][1..] == [];
    assert EntryCells([e]) == FileCells(e.address, e.contents) + [];
  }
}
