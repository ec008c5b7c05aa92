/** What a loader makes of a record sequence, following the Intel
    Hexadecimal Object File Format Specification (Revision A, 1988): an
    extended linear address record (type 04) sets a 32-bit base, an extended
    segment address record (type 02) a paragraph base, and every data record
    (type 00) places its bytes relative to the current base. This is the
    reference the generator is measured against; the program itself has no
    loader. */
module LoadImage {
  import opened Hex
  import opened HexRecords

  /** How a data record's offset is combined with the base: linear
      addressing adds modulo 4 GB, segmented addressing wraps the offset
      within its 64 KB segment. */
  datatype Addressing = Linear | Segmented

  /** The loader's state: the addressing in force and its base address. */
  datatype Base = Base(kind: Addressing, value: nat)

  /** One byte placed at an absolute address. */
  datatype Cell = Cell(address: nat, value: Byte)

  /** The 16-bit value an extension record carries, high byte first. */
  function ExtensionValue(r: HexRecord): nat
    requires |r.data| == 2
  {
    r.data[0] as int * 0x100 + r.data[1] as int
  }

  /** The base after one record: type 04 sets `value * 65536`, type 02
      sets `value * 16`, every other record keeps the base. */
  function NextBase(b: Base, r: HexRecord): Base {
    if r.recordType == EXTENDED_LINEAR_ADDRESS && |r.data| == 2 then Base(Linear, ExtensionValue(r) * 0x1_0000)
    else if r.recordType == EXTENDED_SEGMENT_ADDRESS && |r.data| == 2 then Base(Segmented, ExtensionValue(r) * 0x10)
    else b
  }

  /** The absolute address of the byte at `offset` in a data record. */
  function CellAddress(b: Base, offset: nat): nat {
    match b.kind
    case Linear => (b.value + offset) % 0x1_0000_0000
    case Segmented => b.value + offset % 0x1_0000
  }

  /** The bytes a record places: those of a data record, none otherwise. */
  function RecordCells(b: Base, r: HexRecord): (cells: seq<Cell>)
    ensures |cells| == if r.recordType == DATA then |r.data| else 0
  {
    if r.recordType == DATA then
      seq(|r.data|, k requires 0 <= k < |r.data| => Cell(CellAddress(b, r.address + k), r.data[k]))
    else []
  }

  /** The bytes a record sequence places, in order, starting from base `b`. */
  function LoadFrom(b: Base, records: seq<HexRecord>): seq<Cell>
    decreases |records|
  {
    if records == [] then []
    else RecordCells(b, records[0]) + LoadFrom(NextBase(b, records[0]), records[1..])
  }

  /** The base in force after a record sequence. */
  function BaseAfter(b: Base, records: seq<HexRecord>): Base
    decreases |records|
  {
    if records == [] then b else BaseAfter(NextBase(b, records[0]), records[1..])
  }

  /** A whole file, read from base 0 in the given addressing. */
  function Load(kind: Addressing, records: seq<HexRecord>): seq<Cell> {
    LoadFrom(Base(kind, 0), records)
  }

  /** Loading two record sequences one after the other is loading the
      second from the base the first leaves. */
  lemma {:induction false} LoadAppend(b: Base, xs: seq<HexRecord>, ys: seq<HexRecord>)
    ensures LoadFrom(b, xs + ys) == LoadFrom(b, xs) + LoadFrom(BaseAfter(b, xs), ys)
    ensures BaseAfter(b, xs + ys) == BaseAfter(BaseAfter(b, xs), ys)
    decreases |xs|
  {
    if xs == [] {
      assert xs + ys == ys;
    } else {
      assert (xs + ys)[0] == xs[0];
      assert (xs + ys)[1..] == xs[1..] + ys;
      LoadAppend(NextBase(b, xs[0]), xs[1..], ys);
    }
  }

  /** A record sequence that places nothing, then one record that keeps
      the base, then a tail: the record's bytes followed by the tail's. */
  lemma LoadAround(b: Base, head: seq<HexRecord>, r: HexRecord, tail: seq<HexRecord>, mid: Base)
    requires LoadFrom(b, head) == [] && BaseAfter(b, head) == mid && NextBase(mid, r) == mid
    ensures LoadFrom(b, head + [r] + tail) == RecordCells(mid, r) + LoadFrom(mid, tail)
    ensures BaseAfter(b, head + [r] + tail) == BaseAfter(mid, tail)
  {
    LoadAppend(b, head, [r] + tail);
    assert head + [r] + tail == head + ([r] + tail);
    assert ([r] + tail)[1..] == tail;
  }
}
