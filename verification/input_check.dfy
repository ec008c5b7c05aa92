/** The checks commandline_split (loader/bin2hex.py, lines 187-231) makes on
    the `address,file` pairs before the generator runs: every address fits
    32 bits, no image overlaps another, and every image ends inside 4 GB.
    The images are then sorted by address. */
module InputCheck {
  import opened Results
  import opened Hex
  import opened Layout
  import opened LayoutProofs

  /** Which pairs count as overlapping: `StrictStart` is the test of line 221
      as written, `SharedStart` also catches a non-empty image starting at
      the same address as another. */
  datatype OverlapRule = StrictStart | SharedStart

  /** The check's exceptions, naming the offending images by position. */
  datatype InputError = AddressTooLarge(index: nat) | Overlap(first: nat, second: nat) | ExceedsLimit(index: nat)

  /** Image `i` reaches into image `j`. */
  predicate Overlaps(rule: OverlapRule, entries: seq<Entry>, i: nat, j: nat)
    requires i < |entries| && j < |entries|
  {
    match rule
    case StrictStart => entries[i].address < entries[j].address && End(entries[i]) > entries[j].address
    case SharedStart => i != j && entries[i].address <= entries[j].address && End(entries[i]) > entries[j].address
  }

  /** Line 205 for every pair. */
  predicate AddressesFit(entries: seq<Entry>) {
    forall i :: 0 <= i < |entries| ==> entries[i].address <= LIMIT
  }

  /** Image `i` overlaps no image and ends inside 4 GB (lines 220-226). */
  predicate RowClear(rule: OverlapRule, entries: seq<Entry>, i: nat)
    requires i < |entries|
  {
    && (forall j :: 0 <= j < |entries| ==> !Overlaps(rule, entries, i, j))
    && End(entries[i]) <= LIMIT
  }

  /** The images pass every check. */
  predicate Accepted(rule: OverlapRule, entries: seq<Entry>) {
    AddressesFit(entries) && forall i :: 0 <= i < |entries| ==> RowClear(rule, entries, i)
  }

  /** Accepted images end inside 4 GB, as the generator requires. */
  lemma AcceptedWithinAddressSpace(rule: OverlapRule, entries: seq<Entry>)
    requires Accepted(rule, entries)
    ensures WithinAddressSpace(entries)
  {
    forall i | 0 <= i < |entries|
      ensures End(entries[i]) <= LIMIT
    {
      assert RowClear(rule, entries, i);
    }
  }

  /** `e` is the error the checks raise first: all addresses are examined
      before any overlap, and image `i`'s overlaps (in order of `j`) before
      its 4 GB limit. */
  predicate IsFirstError(rule: OverlapRule, entries: seq<Entry>, e: InputError) {
    match e
    case AddressTooLarge(i) =>
      && i < |entries| && entries[i].address > LIMIT
      && forall k :: 0 <= k < i ==> entries[k].address <= LIMIT
    case Overlap(i, j) =>
      && i < |entries| && j < |entries| && AddressesFit(entries)
      && (forall k :: 0 <= k < i ==> RowClear(rule, entries, k))
      && (forall k :: 0 <= k < j ==> !Overlaps(rule, entries, i, k))
      && Overlaps(rule, entries, i, j)
    case ExceedsLimit(i) =>
      && i < |entries| && AddressesFit(entries)
      && (forall k :: 0 <= k < i ==> RowClear(rule, entries, k))
      && (forall k :: 0 <= k < |entries| ==> !Overlaps(rule, entries, i, k))
      && End(entries[i]) > LIMIT
  }

  /** The loops of lines 198-226: no error exactly when the images are
      accepted, otherwise the first error in the order the loops meet it.
      Accepted images satisfy the generator's address-space precondition. */
  method CheckInputs(rule: OverlapRule, entries: seq<Entry>) returns (err: Option<InputError>)
    ensures err.None? <==> Accepted(rule, entries)
    ensures err.Some? ==> IsFirstError(rule, entries, err.value)
    ensures err.None? ==> WithinAddressSpace(entries)
  {
    var i := 0;
    while i < |entries|
      invariant 0 <= i <= |entries|
      invariant forall k :: 0 <= k < i ==> entries[k].address <= LIMIT
    {
      if entries[i].address > LIMIT {
        return Some(AddressTooLarge(i));
      }
      i := i + 1;
    }
    i := 0;
    while i < |entries|
      invariant 0 <= i <= |entries|
      invariant forall k :: 0 <= k < i ==> RowClear(rule, entries, k)
    {
      var j := 0;
      while j < |entries|
        invariant 0 <= j <= |entries|
        invariant forall k :: 0 <= k < j ==> !Overlaps(rule, entries, i, k)
      {
        if Overlaps(rule, entries, i, j) {
          assert !RowClear(rule, entries, i);
          return Some(Overlap(i, j));
        }
        j := j + 1;
      }
      if End(entries[i]) > LIMIT {
        assert !RowClear(rule, entries, i);
        return Some(ExceedsLimit(i));
      }
      i := i + 1;
    }
    AcceptedWithinAddressSpace(rule, entries);
    return None;
  }

  /** The order `binlistout.sort()` leaves the images in (line 229). */
  predicate SortedByAddress(entries: seq<Entry>) {
    forall i :: 1 <= i < |entries| ==> entries[i - 1].address <= entries[i].address
  }

  /** What the check as written guarantees once the images are sorted: each
      image starts at or after the end of the one before, unless both start
      at the same address. */
  lemma StrictCheckOrdersAllButSharedStarts(entries: seq<Entry>)
    requires SortedByAddress(entries) && Accepted(StrictStart, entries)
    ensures forall i :: 1 <= i < |entries| ==>
      End(entries[i - 1]) <= entries[i].address || entries[i - 1].address == entries[i].address
  {
    forall i | 1 <= i < |entries|
      ensures End(entries[i - 1]) <= entries[i].address || entries[i - 1].address == entries[i].address
    {
      assert RowClear(StrictStart, entries, i - 1);
      assert !Overlaps(StrictStart, entries, i - 1, i);
    }
  }

  /** Two images at one address, the first non-empty, pass the check as
      written, in sorted order, and the generator then refuses them. */
  lemma StrictCheckAdmitsSharedStart(a: nat, x: seq<Byte>, y: seq<Byte>, mode: int, rule: ChunkRule)
    requires |x| > 0 && a + |x| <= LIMIT && a + |y| <= LIMIT && SupportedMode(mode)
    ensures var entries := [Entry(a, x), Entry(a, y)];
      && SortedByAddress(entries)
      && Accepted(StrictStart, entries)
      && Generate(entries, mode, rule) == Err(OutOfOrder(a, a + |x|))
  {
    var entries := [Entry(a, x), Entry(a, y)];
    assert RowClear(StrictStart, entries, 0) && RowClear(StrictStart, entries, 1);
    var c := Cursor(0, 0);
    var first := PlaceEntry(mode, rule, c, entries[0]).value;
    assert entries[1..] == [Entry(a, y)];
    assert PlaceEntry(mode, rule, first.cursor, entries[1]) == Err(OutOfOrder(a, a + |x|));
    assert LayoutFrom(mode, rule, first.cursor, entries[1..]) == Err(OutOfOrder(a, a + |x|));
  }

  /** With the corrected test, sorted accepted images are in the order the
      generator needs, so it never refuses them. */
  lemma SharedCheckOrders(entries: seq<Entry>)
    requires SortedByAddress(entries) && Accepted(SharedStart, entries)
    ensures WithinAddressSpace(entries) && Ordered(entries)
  {
    AcceptedWithinAddressSpace(SharedStart, entries);
    forall i | 1 <= i < |entries|
      ensures End(entries[i - 1]) <= entries[i].address
    {
      assert RowClear(SharedStart, entries, i - 1);
      assert !Overlaps(SharedStart, entries, i - 1, i);
    }
  }

  /** The corrected test rejects everything the one as written rejects. */
  lemma SharedCheckRefinesStrict(entries: seq<Entry>)
    requires Accepted(SharedStart, entries)
    ensures Accepted(StrictStart, entries)
  {
    forall i | 0 <= i < |entries|
      ensures RowClear(StrictStart, entries, i)
    {
      assert RowClear(SharedStart, entries, i);
      forall j | 0 <= j < |entries|
        ensures !Overlaps(StrictStart, entries, i, j)
      {
        assert !Overlaps(SharedStart, entries, i, j);
      }
    }
  }

  /** Images that pass the corrected checks, sorted as the command line
      sorts them, are always laid out: the generator does not raise. */
  lemma CheckedInputsGenerate(entries: seq<Entry>, mode: int, rule: ChunkRule)
    requires SupportedMode(mode) && SortedByAddress(entries) && Accepted(SharedStart, entries)
    ensures WithinAddressSpace(entries) && Generate(entries, mode, rule).Ok?
  {
    SharedCheckOrders(entries);
    GenerateFailsExactlyOutOfOrder(entries, mode, rule);
  }
}
