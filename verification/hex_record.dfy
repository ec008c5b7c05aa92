/** One Intel HEX record (loader/bin2hex.py, class HexRecord): its checksum,
    its construction with an optional expected checksum, and its text form
    `:LLAAAATT<data>CC`. */
module HexRecords {
  import opened Results
  import opened Hex

  const DATA: Byte := 0
  const END_OF_FILE: Byte := 1
  const EXTENDED_SEGMENT_ADDRESS: Byte := 2
  const EXTENDED_LINEAR_ADDRESS: Byte := 4

  /** A record's data: its length must fit the one-byte length field. */
  type Payload = s: seq<Byte> | |s| <= 0xFF

  /** A record as the class stores it; `checksum` is the value the
      constructor computed. */
  datatype HexRecord = HexRecord(recordType: Byte, address: Word, data: Payload, checksum: Byte)

  /** The constructor's exception: the calculated and the given checksum. */
  datatype RecordError = ChecksumMismatch(calculated: Byte, given: int)

  function Sum(s: seq<int>): int {
    if s == [] then 0 else Sum(s[..|s| - 1]) + s[|s| - 1]
  }

  lemma {:induction false} SumAppend(a: seq<int>, b: seq<int>)
    ensures Sum(a + b) == Sum(a) + Sum(b)
    decreases |b|
  {
    if b == [] {
      assert a + b == a;
    } else {
      assert (a + b)[..|a + b| - 1] == a + b[..|b| - 1];
      SumAppend(a, b[..|b| - 1]);
    }
  }

  /** The bytes a record occupies on the wire, in order: length, address
      high byte, address low byte, type, data, checksum. */
  function WireBytes(r: HexRecord): seq<int> {
    [|r.data|, r.address / 0x100, r.address % 0x100, r.recordType] + r.data + [r.checksum]
  }

  /** The Intel HEX integrity check: all bytes of the record add up to 0 modulo 256. */
  predicate WellFormed(r: HexRecord) {
    Sum(WireBytes(r)) % 0x100 == 0
  }

  /** The sum the checksum covers: length, both address bytes, type and data. */
  function FieldSum(recordType: Byte, address: Word, data: Payload): int {
    |data| + address / 0x100 + address % 0x100 + recordType + Sum(data)
  }

  /** Two's-complement negation of the field sum, kept to its low byte (lines 51-55). */
  function Checksum(recordType: Byte, address: Word, data: Payload): (c: Byte)
    ensures (FieldSum(recordType, address, data) + c) % 0x100 == 0
  {
    (-FieldSum(recordType, address, data)) % 0x100
  }

  /** Only one byte closes the sum. */
  lemma ChecksumIsUnique(recordType: Byte, address: Word, data: Payload, c: int)
    requires 0 <= c < 0x100
    requires (FieldSum(recordType, address, data) + c) % 0x100 == 0
    ensures c == Checksum(recordType, address, data)
  {
    var s := FieldSum(recordType, address, data);
    var k := Checksum(recordType, address, data);
    assert (c - k) % 0x100 == 0 by {
      assert (s + c) - (s + k) == c - k;
    }
  }

  lemma {:induction false} WireSum(r: HexRecord)
    ensures Sum(WireBytes(r)) == FieldSum(r.recordType, r.address, r.data) + r.checksum
  {
    var head: seq<int> := [|r.data|, r.address / 0x100, r.address % 0x100, r.recordType];
    SumAppend(head + r.data, [r.checksum]);
    SumAppend(head, r.data);
    assert head[..1][..0] == [];
    assert head[..2][..1] == head[..1];
    assert head[..3][..2] == head[..2];
    assert head[..|head| - 1] == head[..3];
    assert Sum(head[..1]) == |r.data|;
    assert Sum(head[..2]) == |r.data| + r.address / 0x100;
    assert Sum(head[..3]) == |r.data| + r.address / 0x100 + r.address % 0x100;
    assert Sum(head) == Sum(head[..3]) + r.recordType;
    assert Sum([r.checksum]) == r.checksum by {
      assert [r.checksum][..0] == [];
    }
  }

  /** `HexRecord(type, data, checksum, address)` (lines 45-57): keeps the
      fields and computes the checksum; a given checksum that does not close
      the record's byte sum raises. */
  function NewRecord(recordType: Byte, data: Payload, given: Option<int>, address: Word): (r: Result<HexRecord, RecordError>)
    ensures r.Ok? <==> given.None? || (0 <= given.value < 0x100 && (FieldSum(recordType, address, data) + given.value) % 0x100 == 0)
    ensures r.Ok? ==> r.value.recordType == recordType && r.value.address == address && r.value.data == data
    ensures r.Ok? ==> WellFormed(r.value)
    ensures r.Ok? && given.Some? ==> r.value.checksum == given.value
    ensures r.Err? ==> r.error.given == given.value && r.error.calculated != r.error.given
    ensures r.Err? ==> r.error.calculated == Checksum(recordType, address, data)
  {
    var calculated := Checksum(recordType, address, data);
    if given.Some? && calculated != given.value then
      assert !(0 <= given.value < 0x100 && (FieldSum(recordType, address, data) + given.value) % 0x100 == 0) by {
        if 0 <= given.value < 0x100 && (FieldSum(recordType, address, data) + given.value) % 0x100 == 0 {
          ChecksumIsUnique(recordType, address, data, given.value);
        }
      }
      Err(ChecksumMismatch(calculated, given.value))
    else
      var record := HexRecord(recordType, address, data, calculated);
      WireSum(record);
      Ok(record)
  }

  /** The constructor called without a checksum, as the generator does: it
      never raises. */
  function MakeRecord(recordType: Byte, data: Payload, address: Word): (r: HexRecord)
    ensures r.recordType == recordType && r.address == address && r.data == data
    ensures WellFormed(r)
  {
    NewRecord(recordType, data, None, address).value
  }

  /** `"".join("%02X" % b for b in data)`. */
  function HexBytes(data: seq<Byte>): (s: string)
    ensures |s| == 2 * |data|
  {
    if data == [] then "" else HexBytes(data[..|data| - 1]) + Hex2(data[|data| - 1])
  }

  /** `getRecord` (lines 68-75): colon, then length, address, type, data and
      checksum as fixed-width upper-case hexadecimal. */
  function Render(r: HexRecord): (s: string)
    ensures |s| == 11 + 2 * |r.data|
    ensures s[0] == ':'
  {
    ":" + Hex2(|r.data|) + Hex4(r.address) + Hex2(r.recordType) + HexBytes(r.data) + Hex2(r.checksum)
  }

  /** The texts of records, in order. */
  function Rendered(rs: seq<HexRecord>): (lines: seq<string>)
    ensures |lines| == |rs| && forall i :: 0 <= i < |rs| ==> lines[i] == Render(rs[i])
  {
    seq(|rs|, i requires 0 <= i < |rs| => Render(rs[i]))
  }

  lemma {:induction false} HexBytesDigits(data: seq<Byte>)
    ensures forall i :: 0 <= i < |HexBytes(data)| ==> IsUpperHexDigit(HexBytes(data)[i])
    ensures forall k :: 0 <= k < |data| ==> HexBytes(data)[2 * k..2 * k + 2] == Hex2(data[k])
    decreases |data|
  {
    if data != [] {
      var init := data[..|data| - 1];
      HexBytesDigits(init);
      var s := HexBytes(data);
      assert s == HexBytes(init) + Hex2(data[|data| - 1]);
      forall k | 0 <= k < |data|
        ensures s[2 * k..2 * k + 2] == Hex2(data[k])
      {
        if k < |init| {
          assert s[2 * k..2 * k + 2] == HexBytes(init)[2 * k..2 * k + 2];
        }
      }
    }
  }

  /** The text of a record: colon first, every other character an
      upper-case hexadecimal digit, and the fields in the order length,
      address, type, data, checksum, each reading back as its value. */
  lemma RenderLayout(r: HexRecord)
    ensures var s := Render(r);
      && |s| == 11 + 2 * |r.data|
      && s[0] == ':'
      && (forall i :: 1 <= i < |s| ==> IsUpperHexDigit(s[i]))
      && ParseHex(s[1..3]) == Some(|r.data|)
      && ParseHex(s[3..7]) == Some(r.address)
      && ParseHex(s[7..9]) == Some(r.recordType)
      && (forall k :: 0 <= k < |r.data| ==> ParseHex(s[9 + 2 * k..11 + 2 * k]) == Some(r.data[k]))
      && ParseHex(s[|s| - 2..]) == Some(r.checksum)
  {
    var s := Render(r);
    var body := HexBytes(r.data);
    HexBytesDigits(r.data);
    assert s[1..3] == Hex2(|r.data|);
    assert s[3..7] == Hex4(r.address);
    assert s[7..9] == Hex2(r.recordType);
    assert s[9..|s| - 2] == body;
    assert s[|s| - 2..] == Hex2(r.checksum);
    ParseHex2(|r.data|);
    ParseHex4(r.address);
    ParseHex2(r.recordType);
    ParseHex2(r.checksum);
    forall k | 0 <= k < |r.data|
      ensures ParseHex(s[9 + 2 * k..11 + 2 * k]) == Some(r.data[k])
    {
      assert s[9 + 2 * k..11 + 2 * k] == body[2 * k..2 * k + 2];
      ParseHex2(r.data[k]);
    }
    forall i | 1 <= i < |s|
      ensures IsUpperHexDigit(s[i])
    {
      if i < 3 {
        assert s[i] == Hex2(|r.data|)[i - 1];
      } else if i < 7 {
        assert s[i] == Hex4(r.address)[i - 3];
      } else if i < 9 {
        assert s[i] == Hex2(r.recordType)[i - 7];
      } else if i < |s| - 2 {
        assert s[i] == body[i - 9];
      } else {
        assert s[i] == Hex2(r.checksum)[i - (|s| - 2)];
      }
    }
  }

  /** `write` (lines 77-82): streams the header, each data byte and the
      checksum with a newline, which is the record's text plus "\n". */
  method Write(r: HexRecord) returns (out: string)
    ensures out == Render(r) + "\n"
  {
    out := ":" + Hex2(|r.data|) + Hex4(r.address) + Hex2(r.recordType);
    var i := 0;
    while i < |r.data|
      invariant 0 <= i <= |r.data|
      invariant out == ":" + Hex2(|r.data|) + Hex4(r.address) + Hex2(r.recordType) + HexBytes(r.data[..i])
    {
      assert r.data[..i + 1][..i] == r.data[..i];
      out := out + Hex2(r.data[i]);
      i := i + 1;
    }
    assert r.data[..i] == r.data;
    out := out + Hex2(r.checksum) + "\n";
  }

  /** The record closing every generated file (line 176). */
  function EndOfFileRecord(): (r: HexRecord)
    ensures r.recordType == END_OF_FILE && r.data == [] && WellFormed(r)
  {
    MakeRecord(END_OF_FILE, [], 0)
  }

  lemma EndOfFileText()
    ensures Render(EndOfFileRecord()) == ":00000001FF"
  {
    assert Checksum(END_OF_FILE, 0, []) == 0xFF;
  }
}
