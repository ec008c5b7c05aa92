/** Laying binary images out as Intel HEX records (loader/bin2hex.py,
    generatehexfile): the generator walks the images in order, keeps a
    64 KB window offset and a segment base, emits an extended address record
    whenever the offset leaves the window, and cuts each image into data
    records. */
module Layout {
  import opened Results
  import opened Hex
  import opened HexRecords

  /** One input image: its start address and its bytes (the file's contents). */
  datatype Entry = Entry(address: nat, contents: seq<Byte>)

  /** The generator's state between records: `offset` is `curraddr`, the
      address within the current window, and `segment` is `segaddr`, the
      window's base. */
  datatype Cursor = Cursor(offset: nat, segment: nat)

  /** Records emitted by a step, and the state after it. */
  datatype Emitted = Emitted(records: seq<HexRecord>, cursor: Cursor)

  /** The generator's exception: an image starting before the end of what
      was already laid out (line 144). */
  datatype LayoutError = OutOfOrder(address: nat, position: nat)

  /** How many bytes a data record may take when the record length would
      run past the window: `Overshoot` is the formula of lines 163-164,
      `WithinWindow` the remainder of the window. */
  datatype ChunkRule = Overshoot | WithinWindow

  /** Size of one address window, and the last address of the 32-bit space. */
  const WINDOW: nat := 0x1_0000
  const LIMIT: nat := 0xFFFF_FFFF

  /** The format subtypes the generator implements: 4 (32-bit linear) and 2
      (20-bit segmented). */
  predicate SupportedMode(mode: int) {
    mode == 4 || mode == 2
  }

  /** Lines 122-125. */
  function RecordLength(mode: int): (n: nat)
    requires SupportedMode(mode)
    ensures 0 < n <= 0xFF
  {
    if mode == 4 then 32 else 16
  }

  /** The absolute address the cursor stands for. */
  function Position(c: Cursor): nat {
    c.offset + c.segment
  }

  function End(e: Entry): nat {
    e.address + |e.contents|
  }

  /** A window base: a multiple of 64 KB. */
  predicate Aligned(a: nat) {
    a % WINDOW == 0
  }

  /** `a & 0xFFFF0000`. */
  function HighBits(a: nat): nat {
    a / WINDOW % WINDOW * WINDOW
  }

  /** Within 32 bits the mask keeps what lies above the window offset. */
  lemma HighBitsSplit(a: nat)
    requires a <= LIMIT
    ensures HighBits(a) + a % WINDOW == a
    ensures Aligned(HighBits(a))
    ensures HighBits(a) == 0 <==> a < WINDOW
  {
  }

  lemma AlignedSum(a: nat, b: nat)
    requires Aligned(a)
    ensures (a + b) % WINDOW == b % WINDOW
  {
  }

  /** The record announcing a new window base (lines 153-156): its upper
      16 bits in mode 4, the paragraph number in mode 2. */
  function ExtensionRecord(mode: int, segment: nat): (r: HexRecord)
    requires SupportedMode(mode)
    ensures WellFormed(r) && r.address == 0 && |r.data| == 2
    ensures r.recordType == if mode == 4 then EXTENDED_LINEAR_ADDRESS else EXTENDED_SEGMENT_ADDRESS
  {
    if mode == 4 then
      MakeRecord(EXTENDED_LINEAR_ADDRESS, [segment / 0x100_0000 % 0x100, segment / 0x1_0000 % 0x100], 0)
    else
      MakeRecord(EXTENDED_SEGMENT_ADDRESS, [segment / 0x1000 % 0x100, segment / 0x10 % 0x100], 0)
  }

  /** Lines 148-160: when the offset has left the window, fold its high
      part into the segment, announce the new segment, and keep the low
      part as the offset. */
  function EnterWindow(mode: int, c: Cursor): (out: Emitted)
    requires SupportedMode(mode) && Position(c) <= LIMIT
    ensures Position(out.cursor) == Position(c)
    ensures out.cursor.offset < WINDOW
    ensures out.records == [] <==> c.offset < WINDOW
    ensures out.records == [] ==> out.cursor == c
    ensures out.records != [] ==> out.records == [ExtensionRecord(mode, out.cursor.segment)]
    ensures out.cursor.segment >= c.segment
    ensures Aligned(c.segment) ==> Aligned(out.cursor.segment)
  {
    HighBitsSplit(c.offset);
    var high := HighBits(c.offset);
    if high != 0 then
      var segment := high + c.segment;
      AlignedSum(high, c.segment);
      Emitted([ExtensionRecord(mode, segment)], Cursor(c.offset % WINDOW, segment))
    else
      Emitted([], c)
  }

  /** Lines 163-166 as written: past the window the record takes the
      amount by which it would overshoot the window, not what is left of
      the window. */
  function SourceChunk(length: nat, offset: nat): (n: nat)
    requires 0 < length && offset < WINDOW
    ensures 0 < n <= length
    ensures offset + length <= WINDOW ==> n == length
  {
    if offset + length > WINDOW then offset + length - WINDOW else length
  }

  /** The chunk the comment at line 162 asks for: as much of the record
      length as still fits in the window. */
  function WindowChunk(length: nat, offset: nat): (n: nat)
    requires 0 < length && offset < WINDOW
    ensures 0 < n <= length
    ensures offset + n <= WINDOW
    ensures n == length || offset + n == WINDOW
  {
    if offset + length > WINDOW then WINDOW - offset else length
  }

  function ChunkSize(rule: ChunkRule, mode: int, offset: nat): (n: nat)
    requires SupportedMode(mode) && offset < WINDOW
    ensures 0 < n <= RecordLength(mode)
  {
    match rule
    case Overshoot => SourceChunk(RecordLength(mode), offset)
    case WithinWindow => WindowChunk(RecordLength(mode), offset)
  }

  function Min(a: nat, b: nat): nat {
    if a <= b then a else b
  }

  /** One pass of the data-record loop: the records written and the
      cursor after them, and how many of the image's bytes were consumed. */
  datatype Step = Step(records: seq<HexRecord>, cursor: Cursor, taken: nat)

  /** One pass of the loop of lines 147-173: enter the window, read up to
      one chunk (a short read at the end of the file), emit it at the
      window offset, advance the offset by what was read. */
  function EmitStep(mode: int, rule: ChunkRule, c: Cursor, contents: seq<Byte>): (s: Step)
    requires SupportedMode(mode) && Position(c) + |contents| <= LIMIT && |contents| > 0
    ensures 0 < s.taken <= |contents| && s.taken <= RecordLength(mode)
    ensures Position(s.cursor) == Position(c) + s.taken
    ensures s.cursor.segment >= c.segment
    ensures Aligned(c.segment) ==> Aligned(s.cursor.segment)
  {
    var entered := EnterWindow(mode, c);
    var w := entered.cursor;
    var n := Min(ChunkSize(rule, mode, w.offset), |contents|);
    var chunk: Payload := contents[..n];
    Step(entered.records + [MakeRecord(DATA, chunk, w.offset)], Cursor(w.offset + n, w.segment), n)
  }

  /** The loop over one image (lines 147-173), until all of it is read. */
  function EmitFile(mode: int, rule: ChunkRule, c: Cursor, contents: seq<Byte>): (out: Emitted)
    requires SupportedMode(mode) && Position(c) + |contents| <= LIMIT
    ensures Position(out.cursor) == Position(c) + |contents|
    ensures out.cursor.segment >= c.segment
    ensures Aligned(c.segment) ==> Aligned(out.cursor.segment)
    decreases |contents|
  {
    if |contents| == 0 then Emitted([], c)
    else
      var step := EmitStep(mode, rule, c, contents);
      var rest := EmitFile(mode, rule, step.cursor, contents[step.taken..]);
      Emitted(step.records + rest.records, rest.cursor)
  }

  /** Every image ends inside the 32-bit address space, as the command line
      demands before the generator runs (lines 224-226). */
  predicate WithinAddressSpace(entries: seq<Entry>) {
    forall i :: 0 <= i < |entries| ==> End(entries[i]) <= LIMIT
  }

  /** Each image starts at or after the end of the one before it. */
  predicate Ordered(entries: seq<Entry>) {
    forall i :: 1 <= i < |entries| ==> End(entries[i - 1]) <= entries[i].address
  }

  /** Lines 139-141: the offset moves to the image's address within the
      current segment. */
  function MoveTo(c: Cursor, address: nat): (m: Cursor)
    requires Position(c) <= address
    ensures Position(m) == address && m.segment == c.segment
  {
    Cursor(address - c.segment, c.segment)
  }

  /** One image of the outer loop (lines 139-173): refuse it when it starts
      before the current position, otherwise move the offset to its
      address in the current segment and lay it out. */
  function PlaceEntry(mode: int, rule: ChunkRule, c: Cursor, e: Entry): (r: Result<Emitted, LayoutError>)
    requires SupportedMode(mode) && End(e) <= LIMIT
    ensures r.Ok? <==> Position(c) <= e.address
    ensures r.Err? ==> r.error == OutOfOrder(e.address, Position(c))
    ensures r.Ok? ==> Position(r.value.cursor) == End(e) && r.value.cursor.segment >= c.segment
    ensures r.Ok? && Aligned(c.segment) ==> Aligned(r.value.cursor.segment)
    ensures r.Ok? ==> r.value == EmitFile(mode, rule, MoveTo(c, e.address), e.contents)
  {
    if e.address >= Position(c) then
      Ok(EmitFile(mode, rule, MoveTo(c, e.address), e.contents))
    else
      Err(OutOfOrder(e.address, Position(c)))
  }

  lemma WithinAddressSpaceTail(entries: seq<Entry>)
    requires entries != [] && WithinAddressSpace(entries)
    ensures End(entries[0]) <= LIMIT && WithinAddressSpace(entries[1..])
  {
    assert forall i :: 0 <= i < |entries| - 1 ==> entries[1..][i] == entries[i + 1];
  }

  /** The outer loop (lines 133-173): place each image in turn. */
  function LayoutFrom(mode: int, rule: ChunkRule, c: Cursor, entries: seq<Entry>): (r: Result<Emitted, LayoutError>)
    requires SupportedMode(mode) && WithinAddressSpace(entries)
    ensures r.Ok? && entries == [] ==> r.value == Emitted([], c)
    ensures r.Ok? && entries != [] ==> Position(r.value.cursor) == End(entries[|entries| - 1])
    ensures r.Ok? ==> r.value.cursor.segment >= c.segment
    ensures r.Ok? && Aligned(c.segment) ==> Aligned(r.value.cursor.segment)
    decreases |entries|
  {
    if entries == [] then Ok(Emitted([], c))
    else
      WithinAddressSpaceTail(entries);
      match PlaceEntry(mode, rule, c, entries[0])
      case Err(err) => Err(err)
      case Ok(first) =>
        var tail := entries[1..];
        match LayoutFrom(mode, rule, first.cursor, tail)
        case Err(err) => Err(err)
        case Ok(rest) =>
          assert tail != [] ==> tail[|tail| - 1] == entries[|entries| - 1];
          Ok(Emitted(first.records + rest.records, rest.cursor))
  }

  /** generatehexfile (lines 114-178) as records: nothing for a subtype it
      does not implement, otherwise the laid-out images closed by the end
      of file record. */
  function Generate(entries: seq<Entry>, mode: int, rule: ChunkRule): (r: Result<seq<HexRecord>, LayoutError>)
    requires WithinAddressSpace(entries)
    ensures !SupportedMode(mode) ==> r == Ok([])
    ensures SupportedMode(mode) && r.Ok? ==> |r.value| > 0 && r.value[|r.value| - 1] == EndOfFileRecord()
  {
    if !SupportedMode(mode) then Ok([])
    else
      match LayoutFrom(mode, rule, Cursor(0, 0), entries)
      case Err(e) => Err(e)
      case Ok(out) => Ok(out.records + [EndOfFileRecord()])
  }
}
