/** What the generator's output means: every byte of every image lands at
    its address when the file is loaded, the call fails exactly on images
    out of order, the records it writes are of the expected shapes, and the
    text it produces reads back as the same records. */
module LayoutProofs {
  import opened Results
  import opened Hex
  import opened HexRecords
  import opened HexReader
  import opened Layout
  import opened LoadImage

  /** The addressing a loader applies to a file of the given subtype. */
  function KindOf(mode: int): Addressing {
    if mode == 4 then Linear else Segmented
  }

  /** An image's bytes at consecutive addresses from `start`. */
  function FileCells(start: nat, contents: seq<Byte>): (cells: seq<Cell>)
    ensures |cells| == |contents|
  {
    seq(|contents|, k requires 0 <= k < |contents| => Cell(start + k, contents[k]))
  }

  /** All images' bytes at their addresses, image after image. */
  function EntryCells(entries: seq<Entry>): seq<Cell>
    decreases |entries|
  {
    if entries == [] then [] else FileCells(entries[0].address, entries[0].contents) + EntryCells(entries[1..])
  }

  /** The data bytes of a record sequence, in order. */
  function DataBytes(records: seq<HexRecord>): seq<Byte>
    decreases |records|
  {
    if records == [] then []
    else (if records[0].recordType == DATA then records[0].data else []) + DataBytes(records[1..])
  }

  lemma {:induction false} DataBytesAppend(xs: seq<HexRecord>, ys: seq<HexRecord>)
    ensures DataBytes(xs + ys) == DataBytes(xs) + DataBytes(ys)
    decreases |xs|
  {
    if xs == [] {
      assert xs + ys == ys;
    } else {
      assert (xs + ys)[0] == xs[0];
      assert (xs + ys)[1..] == xs[1..] + ys;
      DataBytesAppend(xs[1..], ys);
    }
  }

  lemma DataBytesPair(xs: seq<HexRecord>, ys: seq<HexRecord>, a: seq<Byte>, b: seq<Byte>)
    requires DataBytes(xs) == a && DataBytes(ys) == b
    ensures DataBytes(xs + ys) == a + b
  {
    DataBytesAppend(xs, ys);
  }

  lemma DataBytesJoin(xs: seq<HexRecord>, ys: seq<HexRecord>, contents: seq<Byte>, n: nat)
    requires n <= |contents| && DataBytes(xs) == contents[..n] && DataBytes(ys) == contents[n..]
    ensures DataBytes(xs + ys) == contents
  {
    DataBytesAppend(xs, ys);
    assert contents[..n] + contents[n..] == contents;
  }

  lemma FileCellsSplit(start: nat, contents: seq<Byte>, n: nat, middle: nat)
    requires n <= |contents| && middle == start + n
    ensures FileCells(start, contents) == FileCells(start, contents[..n]) + FileCells(middle, contents[n..])
  {
  }

  /** The base an extension record announces is the segment the generator
      has moved to: the segment's upper 16 bits in mode 4, its paragraph
      number in mode 2, as long as the segment is below 1 MB there. */
  lemma ExtensionRecordSetsBase(mode: int, segment: nat, b: Base)
    requires SupportedMode(mode) && Aligned(segment) && segment <= LIMIT
    requires mode == 2 ==> segment < 0x10_0000
    ensures NextBase(b, ExtensionRecord(mode, segment)) == Base(KindOf(mode), segment)
  {
    var r := ExtensionRecord(mode, segment);
    var q := segment / WINDOW;
    if mode == 4 {
      LinearBytes(segment, q);
      assert ExtensionValue(r) == q;
    } else {
      SegmentBytes(segment, q);
      assert ExtensionValue(r) == q * 0x1000;
    }
  }

  lemma LinearBytes(segment: nat, q: nat)
    requires segment == q * 0x1_0000 && q < 0x1_0000
    ensures segment / 0x100_0000 % 0x100 == q / 0x100
    ensures segment / 0x1_0000 % 0x100 == q % 0x100
  {
    DivUnique(segment, 0x1_0000, q, 0);
    var hi, lo := q / 0x100, q % 0x100;
    DivUnique(q, 0x100, hi, lo);
    DivUnique(segment, 0x100_0000, hi, lo * 0x1_0000);
    DivUnique(hi, 0x100, 0, hi);
  }

  lemma SegmentBytes(segment: nat, q: nat)
    requires segment == q * 0x1_0000 && q < 0x10
    ensures segment / 0x1000 % 0x100 == q * 0x10
    ensures segment / 0x10 % 0x100 == 0
  {
    DivUnique(segment, 0x1000, q * 0x10, 0);
    DivUnique(q * 0x10, 0x100, 0, q * 0x10);
    DivUnique(segment, 0x10, q * 0x1000, 0);
    DivUnique(q * 0x1000, 0x100, q * 0x10, 0);
  }

  lemma DivUnique(x: int, d: int, quotient: int, remainder: int)
    requires d > 0 && 0 <= remainder < d && x == quotient * d + remainder
    ensures x / d == quotient && x % d == remainder
  {
    var k := quotient - x / d;
    assert k * d == x % d - remainder;
  }

  /** The generator's choice of chunk is one a loader in `mode` places
      correctly: the corrected chunk always, the source's in linear mode
      only, where offsets carry past 64 KB instead of wrapping. */
  predicate Placeable(mode: int, rule: ChunkRule) {
    rule == WithinWindow || mode == 4
  }

  /** The highest end address a mode can place: 4 GB in mode 4, 1 MB in mode 2. */
  function ModeEnd(mode: int): nat {
    if mode == 4 then LIMIT else 0x10_0000
  }

  /** Entering the window places nothing and leaves the loader's base on
      the generator's segment. */
  lemma EnterWindowLoads(mode: int, c: Cursor)
    requires SupportedMode(mode) && Position(c) < ModeEnd(mode) && Position(c) <= LIMIT
    requires Aligned(c.segment)
    ensures var out := EnterWindow(mode, c);
      && LoadFrom(Base(KindOf(mode), c.segment), out.records) == []
      && BaseAfter(Base(KindOf(mode), c.segment), out.records) == Base(KindOf(mode), out.cursor.segment)
  {
    var out := EnterWindow(mode, c);
    var b := Base(KindOf(mode), c.segment);
    if out.records != [] {
      var ext := out.records[0];
      ExtensionRecordSetsBase(mode, out.cursor.segment, b);
      assert out.records[1..] == [];
      assert RecordCells(b, ext) == [];
    }
  }

  /** One data record, written at the window offset of cursor `w`, places
      its bytes from the cursor's position on. */
  lemma DataRecordLoads(mode: int, rule: ChunkRule, w: Cursor, chunk: Payload)
    requires SupportedMode(mode) && Placeable(mode, rule)
    requires w.offset < WINDOW && Position(w) + |chunk| <= LIMIT
    requires mode == 2 ==> w.offset + |chunk| <= WINDOW
    ensures var b := Base(KindOf(mode), w.segment);
      var record := MakeRecord(DATA, chunk, w.offset);
      && RecordCells(b, record) == FileCells(Position(w), chunk)
      && NextBase(b, record) == b
  {
    var b := Base(KindOf(mode), w.segment);
    var record := MakeRecord(DATA, chunk, w.offset);
    var cells := RecordCells(b, record);
    forall k | 0 <= k < |chunk|
      ensures cells[k] == FileCells(Position(w), chunk)[k]
    {
      var offset := w.offset + k;
      if mode == 4 {
        assert w.segment + offset < 0x1_0000_0000;
      } else {
        assert offset < WINDOW;
      }
      assert CellAddress(b, offset) == Position(w) + k;
    }
  }

  /** One pass of the loop places the bytes it read at their addresses
      and leaves the loader's base on the generator's segment. */
  lemma StepLoads(mode: int, rule: ChunkRule, c: Cursor, contents: seq<Byte>)
    requires SupportedMode(mode) && Placeable(mode, rule) && |contents| > 0
    requires Position(c) + |contents| <= LIMIT && Position(c) + |contents| <= ModeEnd(mode)
    requires Aligned(c.segment)
    ensures var step, b := EmitStep(mode, rule, c, contents), Base(KindOf(mode), c.segment);
      && LoadFrom(b, step.records) == FileCells(Position(c), contents[..step.taken])
      && BaseAfter(b, step.records) == Base(KindOf(mode), step.cursor.segment)
  {
    var b := Base(KindOf(mode), c.segment);
    var entered := EnterWindow(mode, c);
    var w := entered.cursor;
    var size := ChunkSize(rule, mode, w.offset);
    var n := Min(size, |contents|);
    assert mode == 2 ==> w.offset + size <= WINDOW;
    var chunk: Payload := contents[..n];
    var record := MakeRecord(DATA, chunk, w.offset);
    var wb := Base(KindOf(mode), w.segment);
    EnterWindowLoads(mode, c);
    DataRecordLoads(mode, rule, w, chunk);
    assert EmitStep(mode, rule, c, contents).records == entered.records + [record] + [];
    LoadAround(b, entered.records, record, [], wb);
  }

  /** After one image's records the loader's base is the generator's
      segment, and the bytes placed are the image at its address. */
  lemma {:induction false} EmitFilePlacesBytes(mode: int, rule: ChunkRule, c: Cursor, contents: seq<Byte>, start: nat)
    requires SupportedMode(mode) && Placeable(mode, rule)
    requires start == Position(c) && start + |contents| <= LIMIT && start + |contents| <= ModeEnd(mode)
    requires Aligned(c.segment)
    ensures var out, b := EmitFile(mode, rule, c, contents), Base(KindOf(mode), c.segment);
      && LoadFrom(b, out.records) == FileCells(start, contents)
      && BaseAfter(b, out.records) == Base(KindOf(mode), out.cursor.segment)
    decreases |contents|
  {
    if |contents| > 0 {
      var b := Base(KindOf(mode), c.segment);
      var step := EmitStep(mode, rule, c, contents);
      var rest := EmitFile(mode, rule, step.cursor, contents[step.taken..]);
      StepLoads(mode, rule, c, contents);
      var middle := start + step.taken;
      EmitFilePlacesBytes(mode, rule, step.cursor, contents[step.taken..], middle);
      LoadAppend(b, step.records, rest.records);
      FileCellsSplit(start, contents, step.taken, middle);
    }
  }

  /** Cells that carry an image's bytes in order, each at its address at
      least up to the end of the 64 KB window the image starts in. */
  predicate PlacedWithinWindow(cells: seq<Cell>, start: nat, contents: seq<Byte>) {
    && |cells| == |contents|
    && (forall k :: 0 <= k < |cells| ==> cells[k].value == contents[k])
    && (forall k :: 0 <= k < |cells| && start % WINDOW + k < WINDOW ==> cells[k].address == start + k)
  }

  /** Whatever the chunk rule, a data record written at the window offset
      of cursor `w` places its bytes in order, and each byte that lies
      inside the window at its address. */
  lemma DataRecordLoadsInWindow(mode: int, w: Cursor, chunk: Payload)
    requires SupportedMode(mode) && Aligned(w.segment)
    requires w.offset < WINDOW && Position(w) + |chunk| <= LIMIT
    ensures var b := Base(KindOf(mode), w.segment);
      var record := MakeRecord(DATA, chunk, w.offset);
      && PlacedWithinWindow(RecordCells(b, record), Position(w), chunk)
      && NextBase(b, record) == b
  {
    var b := Base(KindOf(mode), w.segment);
    var record := MakeRecord(DATA, chunk, w.offset);
    var cells := RecordCells(b, record);
    var start := Position(w);
    AlignedSum(w.segment, w.offset);
    forall k | 0 <= k < |cells| && start % WINDOW + k < WINDOW
      ensures cells[k].address == start + k
    {
      CellInWindow(mode, w, k);
    }
  }

  /** The address a loader gives the byte `k` places after the window
      offset, while that byte is inside the window. */
  lemma CellInWindow(mode: int, w: Cursor, k: nat)
    requires SupportedMode(mode) && w.offset + k < WINDOW && Position(w) + k < LIMIT
    ensures CellAddress(Base(KindOf(mode), w.segment), w.offset + k) == Position(w) + k
  {
  }

  /** One pass of the loop, under either chunk rule: the bytes it read
      are placed in order, those inside the starting window at their
      addresses, and the loader's base follows the generator's segment. */
  lemma StepLoadsInWindow(mode: int, rule: ChunkRule, c: Cursor, contents: seq<Byte>)
    requires SupportedMode(mode) && |contents| > 0
    requires Position(c) + |contents| <= LIMIT && Position(c) + |contents| <= ModeEnd(mode)
    requires Aligned(c.segment)
    ensures var step, b := EmitStep(mode, rule, c, contents), Base(KindOf(mode), c.segment);
      && PlacedWithinWindow(LoadFrom(b, step.records), Position(c), contents[..step.taken])
      && LoadFrom(b, step.records)[0] == Cell(Position(c), contents[0])
      && BaseAfter(b, step.records) == Base(KindOf(mode), step.cursor.segment)
  {
    var b := Base(KindOf(mode), c.segment);
    var entered := EnterWindow(mode, c);
    var w := entered.cursor;
    var n := Min(ChunkSize(rule, mode, w.offset), |contents|);
    var chunk: Payload := contents[..n];
    var record := MakeRecord(DATA, chunk, w.offset);
    var wb := Base(KindOf(mode), w.segment);
    EnterWindowLoads(mode, c);
    DataRecordLoadsInWindow(mode, w, chunk);
    assert EmitStep(mode, rule, c, contents).records == entered.records + [record] + [];
    LoadAround(b, entered.records, record, [], wb);
  }

  lemma PlacedWithinWindowJoin(xs: seq<Cell>, ys: seq<Cell>, start: nat, contents: seq<Byte>, n: nat, middle: nat)
    requires n <= |contents| && middle == start + n
    requires PlacedWithinWindow(xs, start, contents[..n]) && PlacedWithinWindow(ys, middle, contents[n..])
    ensures PlacedWithinWindow(xs + ys, start, contents)
  {
    var cells := xs + ys;
    forall k | n <= k < |cells| && start % WINDOW + k < WINDOW
      ensures cells[k].address == start + k
    {
      DivUnique(middle, WINDOW, start / WINDOW, start % WINDOW + n);
      assert ys[k - n].address == middle + (k - n);
    }
    assert forall k :: 0 <= k < |cells| ==> cells[k].value == contents[k] by {
      forall k | 0 <= k < |cells|
        ensures cells[k].value == contents[k]
      {
        if k >= n {
          assert ys[k - n].value == contents[n..][k - n];
        }
      }
    }
  }

  /** Under either chunk rule, an image's records place its bytes in
      order, its first byte at its start, and every byte up to the end of
      the window it starts in at its address. With the chunk as written
      in mode 2, bytes past that point can land elsewhere (see
      `ChunkCounterexamples`). */
  lemma {:induction false} EmitFileLoadsInWindow(mode: int, rule: ChunkRule, c: Cursor, contents: seq<Byte>, start: nat)
    requires SupportedMode(mode)
    requires start == Position(c) && start + |contents| <= LIMIT && start + |contents| <= ModeEnd(mode)
    requires Aligned(c.segment)
    ensures var out, b := EmitFile(mode, rule, c, contents), Base(KindOf(mode), c.segment);
      && PlacedWithinWindow(LoadFrom(b, out.records), start, contents)
      && (|contents| > 0 ==> LoadFrom(b, out.records)[0] == Cell(start, contents[0]))
      && BaseAfter(b, out.records) == Base(KindOf(mode), out.cursor.segment)
    decreases |contents|
  {
    var b := Base(KindOf(mode), c.segment);
    if |contents| == 0 {
      assert LoadFrom(b, []) == [];
    } else {
      var step := EmitStep(mode, rule, c, contents);
      var rest := EmitFile(mode, rule, step.cursor, contents[step.taken..]);
      StepLoadsInWindow(mode, rule, c, contents);
      var middle := start + step.taken;
      EmitFileLoadsInWindow(mode, rule, step.cursor, contents[step.taken..], middle);
      LoadAppend(b, step.records, rest.records);
      PlacedWithinWindowJoin(LoadFrom(b, step.records), LoadFrom(BaseAfter(b, step.records), rest.records),
        start, contents, step.taken, middle);
    }
  }

  /** Every image ends where the mode's addressing can still reach. */
  predicate FitsMode(mode: int, entries: seq<Entry>) {
    forall i :: 0 <= i < |entries| ==> End(entries[i]) <= ModeEnd(mode)
  }

  lemma FitsModeTail(mode: int, entries: seq<Entry>)
    requires entries != [] && FitsMode(mode, entries)
    ensures End(entries[0]) <= ModeEnd(mode) && FitsMode(mode, entries[1..])
  {
    assert forall i :: 0 <= i < |entries| - 1 ==> entries[1..][i] == entries[i + 1];
  }

  /** A successful outer loop is its first image's records followed by
      the rest's, laid out from where the first image ended. */
  lemma LayoutFromSplit(mode: int, rule: ChunkRule, c: Cursor, entries: seq<Entry>)
    requires SupportedMode(mode) && WithinAddressSpace(entries) && entries != []
    requires LayoutFrom(mode, rule, c, entries).Ok?
    ensures End(entries[0]) <= LIMIT && WithinAddressSpace(entries[1..])
    ensures var first := PlaceEntry(mode, rule, c, entries[0]);
      && first.Ok?
      && LayoutFrom(mode, rule, first.value.cursor, entries[1..]).Ok?
      && LayoutFrom(mode, rule, c, entries).value.records
         == first.value.records + LayoutFrom(mode, rule, first.value.cursor, entries[1..]).value.records
  {
    WithinAddressSpaceTail(entries);
  }

  /** The images laid out from any aligned cursor place their bytes at
      their addresses, and the loader's base ends on the generator's segment. */
  lemma {:induction false} LayoutFromPlacesBytes(mode: int, rule: ChunkRule, c: Cursor, entries: seq<Entry>)
    requires SupportedMode(mode) && Placeable(mode, rule)
    requires WithinAddressSpace(entries) && FitsMode(mode, entries)
    requires Aligned(c.segment)
    requires LayoutFrom(mode, rule, c, entries).Ok?
    ensures var out, b := LayoutFrom(mode, rule, c, entries).value, Base(KindOf(mode), c.segment);
      && LoadFrom(b, out.records) == EntryCells(entries)
      && BaseAfter(b, out.records) == Base(KindOf(mode), out.cursor.segment)
    decreases |entries|
  {
    if entries != [] {
      var b := Base(KindOf(mode), c.segment);
      LayoutFromSplit(mode, rule, c, entries);
      FitsModeTail(mode, entries);
      var first := PlaceEntry(mode, rule, c, entries[0]).value;
      var rest := LayoutFrom(mode, rule, first.cursor, entries[1..]).value;
      var e := entries[0];
      EmitFilePlacesBytes(mode, rule, MoveTo(c, e.address), e.contents, e.address);
      LayoutFromPlacesBytes(mode, rule, first.cursor, entries[1..]);
      LoadAppend(b, first.records, rest.records);
    }
  }

  /** An empty image at or after the cursor writes no record; the offset
      still moves to its address, without an extension record. */
  lemma EmptyImageWritesNothing(mode: int, rule: ChunkRule, c: Cursor, e: Entry)
    requires SupportedMode(mode) && End(e) <= LIMIT && |e.contents| == 0 && Position(c) <= e.address
    ensures PlaceEntry(mode, rule, c, e) == Ok(Emitted([], MoveTo(c, e.address)))
  {
  }

  /** The end of file record places nothing. */
  lemma LoadIgnoresEndOfFile(kind: Addressing, records: seq<HexRecord>)
    ensures Load(kind, records + [EndOfFileRecord()]) == Load(kind, records)
  {
    var b := Base(kind, 0);
    LoadAppend(b, records, [EndOfFileRecord()]);
    assert [EndOfFileRecord()][1..] == [];
  }

  /** The generator's central promise: for images in order, each ending in
      the 32-bit space (and below 1 MB in mode 2), loading the file it
      writes puts every byte of every image at its address, and nothing
      else. It holds for the source's chunking in mode 4 and for the
      corrected chunking in both modes. */
  lemma GeneratePlacesEveryByte(entries: seq<Entry>, mode: int, rule: ChunkRule)
    requires SupportedMode(mode) && Placeable(mode, rule)
    requires WithinAddressSpace(entries) && FitsMode(mode, entries) && Ordered(entries)
    ensures Generate(entries, mode, rule).Ok?
    ensures Load(KindOf(mode), Generate(entries, mode, rule).value) == EntryCells(entries)
  {
    var c := Cursor(0, 0);
    LayoutFromSucceeds(mode, rule, c, entries);
    var out := LayoutFrom(mode, rule, c, entries).value;
    GenerateValue(entries, mode, rule);
    LayoutFromPlacesBytes(mode, rule, c, entries);
    LoadIgnoresEndOfFile(KindOf(mode), out.records);
  }

  /** A successful call is the outer loop's records and the end of file record. */
  lemma GenerateValue(entries: seq<Entry>, mode: int, rule: ChunkRule)
    requires SupportedMode(mode) && WithinAddressSpace(entries)
    requires LayoutFrom(mode, rule, Cursor(0, 0), entries).Ok?
    ensures Generate(entries, mode, rule) == Ok(LayoutFrom(mode, rule, Cursor(0, 0), entries).value.records + [EndOfFileRecord()])
  {
  }

  lemma OrderedTail(entries: seq<Entry>)
    requires entries != []
    ensures Ordered(entries) <==> Ordered(entries[1..]) && (|entries| == 1 || End(entries[0]) <= entries[1].address)
  {
    var tail := entries[1..];
    if Ordered(tail) && (|entries| == 1 || End(entries[0]) <= entries[1].address) {
      forall i | 1 <= i < |entries|
        ensures End(entries[i - 1]) <= entries[i].address
      {
        if i > 1 {
          assert entries[i - 1] == tail[i - 2] && entries[i] == tail[i - 1];
        }
      }
    }
    if Ordered(entries) {
      forall i | 1 <= i < |tail|
        ensures End(tail[i - 1]) <= tail[i].address
      {
        assert tail[i - 1] == entries[i] && tail[i] == entries[i + 1];
      }
    }
  }

  /** The outer loop succeeds exactly when the first image starts at or
      after the cursor and each later one at or after the end of the one
      before. */
  lemma {:induction false} LayoutFromSucceeds(mode: int, rule: ChunkRule, c: Cursor, entries: seq<Entry>)
    requires SupportedMode(mode) && WithinAddressSpace(entries)
    ensures LayoutFrom(mode, rule, c, entries).Ok?
      <==> (entries == [] || Position(c) <= entries[0].address) && Ordered(entries)
    decreases |entries|
  {
    if entries != [] {
      WithinAddressSpaceTail(entries);
      OrderedTail(entries);
      var first := PlaceEntry(mode, rule, c, entries[0]);
      if first.Ok? {
        LayoutFromSucceeds(mode, rule, first.value.cursor, entries[1..]);
      }
    }
  }

  /** The lower bound the `i`-th image must respect: the cursor's position
      for the first, the end of the previous image for the others. */
  function Bound(start: nat, entries: seq<Entry>, i: nat): nat
    requires i < |entries|
  {
    if i == 0 then start else End(entries[i - 1])
  }

  lemma BoundShift(p: nat, entries: seq<Entry>, i: nat)
    requires i + 1 < |entries| && p <= entries[0].address
    requires forall j :: 0 <= j < i ==> Bound(End(entries[0]), entries[1..], j) <= entries[1..][j].address
    ensures Bound(p, entries, i + 1) == Bound(End(entries[0]), entries[1..], i)
    ensures forall j :: 0 <= j < i + 1 ==> Bound(p, entries, j) <= entries[j].address
  {
    var tail, q := entries[1..], End(entries[0]);
    forall j | 0 <= j < i + 1
      ensures Bound(p, entries, j) <= entries[j].address
    {
      if j > 0 {
        assert Bound(p, entries, j) == Bound(q, tail, j - 1);
        assert entries[j] == tail[j - 1];
      }
    }
  }

  /** On failure the error names the first image that starts below its
      bound, with that image's address and the bound. */
  lemma LayoutFromFails(mode: int, rule: ChunkRule, c: Cursor, entries: seq<Entry>)
    requires SupportedMode(mode) && WithinAddressSpace(entries)
    requires LayoutFrom(mode, rule, c, entries).Err?
    ensures var err, p := LayoutFrom(mode, rule, c, entries).error, Position(c);
      exists i :: 0 <= i < |entries| && entries[i].address < Bound(p, entries, i)
        && err == OutOfOrder(entries[i].address, Bound(p, entries, i))
        && forall j :: 0 <= j < i ==> Bound(p, entries, j) <= entries[j].address
  {
    var i := FirstFailure(mode, rule, c, entries);
  }

  /** The index of the image the failure names. */
  lemma {:induction false} FirstFailure(mode: int, rule: ChunkRule, c: Cursor, entries: seq<Entry>) returns (i: nat)
    requires SupportedMode(mode) && WithinAddressSpace(entries)
    requires LayoutFrom(mode, rule, c, entries).Err?
    ensures var err, p := LayoutFrom(mode, rule, c, entries).error, Position(c);
      && i < |entries| && entries[i].address < Bound(p, entries, i)
      && err == OutOfOrder(entries[i].address, Bound(p, entries, i))
      && forall j :: 0 <= j < i ==> Bound(p, entries, j) <= entries[j].address
    decreases |entries|
  {
    var p := Position(c);
    WithinAddressSpaceTail(entries);
    var first := PlaceEntry(mode, rule, c, entries[0]);
    if first.Ok? {
      var tail := entries[1..];
      var k := FirstFailure(mode, rule, first.value.cursor, tail);
      BoundShift(p, entries, k);
      assert entries[k + 1] == tail[k];
      i := k + 1;
    } else {
      i := 0;
      assert Bound(p, entries, 0) == p;
    }
  }

  /** generatehexfile raises exactly when some image starts before the end
      of the one listed before it, and then reports the first such image's
      address and that end. */
  lemma GenerateFailsExactlyOutOfOrder(entries: seq<Entry>, mode: int, rule: ChunkRule)
    requires SupportedMode(mode) && WithinAddressSpace(entries)
    ensures Generate(entries, mode, rule).Ok? <==> Ordered(entries)
    ensures Generate(entries, mode, rule).Err? ==>
      exists i :: 1 <= i < |entries| && entries[i].address < End(entries[i - 1])
        && Generate(entries, mode, rule).error == OutOfOrder(entries[i].address, End(entries[i - 1]))
        && Ordered(entries[..i])
  {
    GenerateSucceedsWhenOrdered(entries, mode, rule);
    GenerateFailureNamed(entries, mode, rule);
  }

  lemma GenerateSucceedsWhenOrdered(entries: seq<Entry>, mode: int, rule: ChunkRule)
    requires SupportedMode(mode) && WithinAddressSpace(entries)
    ensures Generate(entries, mode, rule).Ok? <==> Ordered(entries)
  {
    var c := Cursor(0, 0);
    assert Generate(entries, mode, rule).Ok? == LayoutFrom(mode, rule, c, entries).Ok?;
    LayoutFromSucceeds(mode, rule, c, entries);
  }

  lemma GenerateFailureNamed(entries: seq<Entry>, mode: int, rule: ChunkRule)
    requires SupportedMode(mode) && WithinAddressSpace(entries)
    ensures Generate(entries, mode, rule).Err? ==>
      exists i :: 1 <= i < |entries| && entries[i].address < End(entries[i - 1])
        && Generate(entries, mode, rule).error == OutOfOrder(entries[i].address, End(entries[i - 1]))
        && Ordered(entries[..i])
  {
    if Generate(entries, mode, rule).Err? {
      var i := GenerateFailure(entries, mode, rule);
    }
  }

  /** The index of the image a failed call names. */
  lemma GenerateFailure(entries: seq<Entry>, mode: int, rule: ChunkRule) returns (i: nat)
    requires SupportedMode(mode) && WithinAddressSpace(entries)
    requires Generate(entries, mode, rule).Err?
    ensures 1 <= i < |entries| && entries[i].address < End(entries[i - 1])
    ensures Generate(entries, mode, rule).error == OutOfOrder(entries[i].address, End(entries[i - 1]))
    ensures Ordered(entries[..i])
  {
    var c := Cursor(0, 0);
    assert Generate(entries, mode, rule).error == LayoutFrom(mode, rule, c, entries).error;
    i := FirstFailure(mode, rule, c, entries);
    assert i > 0 && Bound(0, entries, i) == End(entries[i - 1]);
    OrderedPrefix(entries, i);
  }

  lemma OrderedPrefix(entries: seq<Entry>, i: nat)
    requires i <= |entries|
    requires forall j :: 0 <= j < i ==> Bound(0, entries, j) <= entries[j].address
    ensures Ordered(entries[..i])
  {
    var prefix := entries[..i];
    forall j | 1 <= j < |prefix|
      ensures End(prefix[j - 1]) <= prefix[j].address
    {
      assert Bound(0, entries, j) <= entries[j].address;
    }
  }

  /** The extended address record type each mode writes. */
  function ExtensionType(mode: int): Byte {
    if mode == 4 then EXTENDED_LINEAR_ADDRESS else EXTENDED_SEGMENT_ADDRESS
  }

  /** A record the loop may write: a well-formed data record of one to
      `RecordLength(mode)` bytes at a window offset, inside the window
      under the corrected chunking, or the mode's extension record. */
  predicate Shaped(mode: int, rule: ChunkRule, r: HexRecord)
    requires SupportedMode(mode)
  {
    && WellFormed(r)
    && ((r.recordType == DATA && 0 < |r.data| <= RecordLength(mode)
          && (rule == WithinWindow ==> r.address + |r.data| <= WINDOW))
        || (r.recordType == ExtensionType(mode) && r.address == 0 && |r.data| == 2))
  }

  predicate AllShaped(mode: int, rule: ChunkRule, records: seq<HexRecord>)
    requires SupportedMode(mode)
  {
    forall i :: 0 <= i < |records| ==> Shaped(mode, rule, records[i])
  }

  lemma AllShapedAppend(mode: int, rule: ChunkRule, xs: seq<HexRecord>, ys: seq<HexRecord>)
    requires SupportedMode(mode) && AllShaped(mode, rule, xs) && AllShaped(mode, rule, ys)
    ensures AllShaped(mode, rule, xs + ys)
  {
    forall i | 0 <= i < |xs + ys|
      ensures Shaped(mode, rule, (xs + ys)[i])
    {
      if i >= |xs| {
        assert (xs + ys)[i] == ys[i - |xs|];
      }
    }
  }

  /** One pass of the loop writes shaped records. */
  lemma StepShape(mode: int, rule: ChunkRule, c: Cursor, contents: seq<Byte>)
    requires SupportedMode(mode) && Position(c) + |contents| <= LIMIT && |contents| > 0
    ensures AllShaped(mode, rule, EmitStep(mode, rule, c, contents).records)
  {
    var entered := EnterWindow(mode, c);
    var w := entered.cursor;
    var size := ChunkSize(rule, mode, w.offset);
    var n := Min(size, |contents|);
    assert rule == WithinWindow ==> w.offset + size <= WINDOW;
    var chunk: Payload := contents[..n];
    var record := MakeRecord(DATA, chunk, w.offset);
    assert EmitStep(mode, rule, c, contents).records == entered.records + [record];
    assert Shaped(mode, rule, record);
    if entered.records != [] {
      assert Shaped(mode, rule, entered.records[0]);
    }
    AllShapedAppend(mode, rule, entered.records, [record]);
  }

  /** The data one pass of the loop writes is exactly the bytes it consumed. */
  lemma StepData(mode: int, rule: ChunkRule, c: Cursor, contents: seq<Byte>)
    requires SupportedMode(mode) && Position(c) + |contents| <= LIMIT && |contents| > 0
    ensures var step := EmitStep(mode, rule, c, contents);
      DataBytes(step.records) == contents[..step.taken]
  {
    var entered := EnterWindow(mode, c);
    var w := entered.cursor;
    var n := Min(ChunkSize(rule, mode, w.offset), |contents|);
    var chunk: Payload := contents[..n];
    var record := MakeRecord(DATA, chunk, w.offset);
    assert EmitStep(mode, rule, c, contents).records == entered.records + [record];
    assert DataBytes([record]) == chunk;
    if entered.records != [] {
      assert DataBytes(entered.records) == [];
    }
    DataBytesAppend(entered.records, [record]);
  }

  /** The loop over one image writes shaped records. */
  lemma {:induction false} EmitFileShape(mode: int, rule: ChunkRule, c: Cursor, contents: seq<Byte>)
    requires SupportedMode(mode) && Position(c) + |contents| <= LIMIT
    ensures AllShaped(mode, rule, EmitFile(mode, rule, c, contents).records)
    decreases |contents|
  {
    if |contents| > 0 {
      var step := EmitStep(mode, rule, c, contents);
      var rest := EmitFile(mode, rule, step.cursor, contents[step.taken..]);
      StepShape(mode, rule, c, contents);
      EmitFileShape(mode, rule, step.cursor, contents[step.taken..]);
      assert EmitFile(mode, rule, c, contents).records == step.records + rest.records;
      AllShapedAppend(mode, rule, step.records, rest.records);
    }
  }

  /** The data records of one image, read in order, are the whole image. */
  lemma {:induction false} EmitFileData(mode: int, rule: ChunkRule, c: Cursor, contents: seq<Byte>)
    requires SupportedMode(mode) && Position(c) + |contents| <= LIMIT
    ensures DataBytes(EmitFile(mode, rule, c, contents).records) == contents
    decreases |contents|
  {
    if |contents| > 0 {
      var step := EmitStep(mode, rule, c, contents);
      var rest := EmitFile(mode, rule, step.cursor, contents[step.taken..]);
      StepData(mode, rule, c, contents);
      EmitFileData(mode, rule, step.cursor, contents[step.taken..]);
      assert EmitFile(mode, rule, c, contents).records == step.records + rest.records;
      DataBytesJoin(step.records, rest.records, contents, step.taken);
    }
  }

  /** All images' bytes, one image after another. */
  function Concatenation(entries: seq<Entry>): seq<Byte>
    decreases |entries|
  {
    if entries == [] then [] else entries[0].contents + Concatenation(entries[1..])
  }

  lemma {:induction false} LayoutFromShape(mode: int, rule: ChunkRule, c: Cursor, entries: seq<Entry>)
    requires SupportedMode(mode) && WithinAddressSpace(entries)
    requires LayoutFrom(mode, rule, c, entries).Ok?
    ensures AllShaped(mode, rule, LayoutFrom(mode, rule, c, entries).value.records)
    decreases |entries|
  {
    if entries != [] {
      LayoutFromSplit(mode, rule, c, entries);
      var first := PlaceEntry(mode, rule, c, entries[0]).value;
      var rest := LayoutFrom(mode, rule, first.cursor, entries[1..]).value;
      var e := entries[0];
      EmitFileShape(mode, rule, MoveTo(c, e.address), e.contents);
      LayoutFromShape(mode, rule, first.cursor, entries[1..]);
      AllShapedAppend(mode, rule, first.records, rest.records);
    }
  }

  lemma {:induction false} LayoutFromData(mode: int, rule: ChunkRule, c: Cursor, entries: seq<Entry>)
    requires SupportedMode(mode) && WithinAddressSpace(entries)
    requires LayoutFrom(mode, rule, c, entries).Ok?
    ensures DataBytes(LayoutFrom(mode, rule, c, entries).value.records) == Concatenation(entries)
    decreases |entries|
  {
    if entries != [] {
      LayoutFromSplit(mode, rule, c, entries);
      var first := PlaceEntry(mode, rule, c, entries[0]).value;
      var rest := LayoutFrom(mode, rule, first.cursor, entries[1..]).value;
      var e := entries[0];
      EmitFileData(mode, rule, MoveTo(c, e.address), e.contents);
      LayoutFromData(mode, rule, first.cursor, entries[1..]);
      DataBytesPair(first.records, rest.records, entries[0].contents, Concatenation(entries[1..]));
    }
  }

  /** What a successful call writes: shaped data and extension records,
      then the end of file record and nothing after it; the data records
      carry every byte of every image, in order. */
  lemma GeneratedRecordShapes(entries: seq<Entry>, mode: int, rule: ChunkRule)
    requires SupportedMode(mode) && WithinAddressSpace(entries)
    requires Generate(entries, mode, rule).Ok?
    ensures var rs := Generate(entries, mode, rule).value;
      && AllShaped(mode, rule, rs[..|rs| - 1])
      && rs[|rs| - 1] == EndOfFileRecord()
      && (forall i :: 0 <= i < |rs| ==> WellFormed(rs[i]))
      && DataBytes(rs) == Concatenation(entries)
  {
    GeneratedShapes(entries, mode, rule);
    GeneratedData(entries, mode, rule);
  }

  lemma GeneratedShapes(entries: seq<Entry>, mode: int, rule: ChunkRule)
    requires SupportedMode(mode) && WithinAddressSpace(entries)
    requires Generate(entries, mode, rule).Ok?
    ensures var rs := Generate(entries, mode, rule).value;
      && AllShaped(mode, rule, rs[..|rs| - 1])
      && (forall i :: 0 <= i < |rs| ==> WellFormed(rs[i]))
  {
    var out := LayoutFrom(mode, rule, Cursor(0, 0), entries).value;
    GenerateValue(entries, mode, rule);
    var rs := Generate(entries, mode, rule).value;
    LayoutFromShape(mode, rule, Cursor(0, 0), entries);
    assert rs[..|rs| - 1] == out.records;
    forall i | 0 <= i < |rs|
      ensures WellFormed(rs[i])
    {
      if i < |rs| - 1 {
        assert Shaped(mode, rule, out.records[i]);
      }
    }
  }

  lemma GeneratedData(entries: seq<Entry>, mode: int, rule: ChunkRule)
    requires SupportedMode(mode) && WithinAddressSpace(entries)
    requires Generate(entries, mode, rule).Ok?
    ensures DataBytes(Generate(entries, mode, rule).value) == Concatenation(entries)
  {
    var out := LayoutFrom(mode, rule, Cursor(0, 0), entries).value;
    GenerateValue(entries, mode, rule);
    LayoutFromData(mode, rule, Cursor(0, 0), entries);
    assert DataBytes([EndOfFileRecord()]) == [];
    DataBytesPair(out.records, [EndOfFileRecord()], Concatenation(entries), []);
    assert Concatenation(entries) + [] == Concatenation(entries);
  }

  /** Under the corrected chunking no data record runs past its 64 KB
      window, in either mode. */
  lemma WindowRecordsStayInWindow(entries: seq<Entry>, mode: int)
    requires SupportedMode(mode) && WithinAddressSpace(entries)
    requires Generate(entries, mode, WithinWindow).Ok?
    ensures var rs := Generate(entries, mode, WithinWindow).value;
      forall i :: 0 <= i < |rs| && rs[i].recordType == DATA ==> rs[i].address + |rs[i].data| <= WINDOW
  {
    var rs := Generate(entries, mode, WithinWindow).value;
    GeneratedRecordShapes(entries, mode, WithinWindow);
    forall i | 0 <= i < |rs| && rs[i].recordType == DATA
      ensures rs[i].address + |rs[i].data| <= WINDOW
    {
      if i < |rs| - 1 {
        assert rs[i] == rs[..|rs| - 1][i];
      }
    }
  }
}
