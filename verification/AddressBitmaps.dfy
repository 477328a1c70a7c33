/** One bit per address of a range, and its byte encoding (core/src/AddressBitmap.cpp,
    core/src/SymbolTable.cpp). */
module AddressBitmaps {
  import opened Extents
  import opened Options
  import opened Sequences
  import opened AddressSets

  // ---------------------------------------------------------------- bits and bytes

  /** 1 << k. */
  function Bit(k: nat): bv8
    requires k < 8
  {
    if k == 0 then 1 else if k == 1 then 2 else if k == 2 then 4 else if k == 3 then 8
    else if k == 4 then 16 else if k == 5 then 32 else if k == 6 then 64 else 128
  }

  predicate Test(b: bv8, k: nat)
    requires k < 8
  {
    b & Bit(k) != 0
  }

  lemma TestZero(k: nat)
    requires k < 8
    ensures !Test(0, k)
  {
  }

  lemma TestOr(b: bv8, j: nat, k: nat)
    requires j < 8 && k < 8
    ensures Test(b | Bit(j), k) <==> j == k || Test(b, k)
  {
  }

  /** A byte is the sum of its bits, bit k counting 2^k. */
  lemma ByteIsItsBits(b: bv8)
    ensures b as int == (if Test(b, 0) then 1 else 0) + (if Test(b, 1) then 2 else 0) + (if Test(b, 2) then 4 else 0)
                        + (if Test(b, 3) then 8 else 0) + (if Test(b, 4) then 16 else 0)
                        + (if Test(b, 5) then 32 else 0) + (if Test(b, 6) then 64 else 0)
                        + (if Test(b, 7) then 128 else 0)
  {
  }

  /** Bit i of a blob: bit i % 8 of byte i / 8. */
  predicate BitOf(blob: seq<bv8>, i: nat)
    requires i / 8 < |blob|
  {
    Test(blob[i / 8], i % 8)
  }

  /** The least number of bytes with that many bits. */
  function BlobSize(width: nat): (n: nat)
    requires width > 0
    ensures 8 * (n - 1) < width <= 8 * n
  {
    (width - 1) / 8 + 1
  }

  /** The blob holds the bits, and zeros after them. */
  ghost predicate Encodes(blob: seq<bv8>, bits: seq<bool>) {
    && |bits| > 0 && |blob| == BlobSize(|bits|)
    && forall i: nat :: i < 8 * |blob| ==> (BitOf(blob, i) <==> i < |bits| && bits[i])
  }

  lemma SetBit(blob: seq<bv8>, i: nat, j: nat)
    requires i / 8 < |blob| && j / 8 < |blob|
    ensures BitOf(blob[i / 8 := blob[i / 8] | Bit(i % 8)], j) <==> j == i || BitOf(blob, j)
  {
    if i / 8 == j / 8 {
      TestOr(blob[i / 8], i % 8, j % 8);
    }
  }

  // ---------------------------------------------------------------- 32-bit counters

  /** The bit loops count with a 32-bit unsigned variable: its value after k increments. */
  function Counter(k: nat): nat {
    k % 0x1_0000_0000
  }

  /** Widths such a loop gets to the end of. */
  predicate Countable(width: int) {
    width < 0x1_0000_0000
  }

  lemma LoopEndsIff(width: nat)
    ensures (exists k :: Counter(k) >= width) <==> Countable(width)
    ensures Countable(width) <==> width < 0x1_0000_0000
  {
    if Countable(width) {
      assert Counter(width) == width;
    }
  }

  // ---------------------------------------------------------------- the class

  class AddressBitmap {
    const range: Interval
    var bits: seq<bool>

    ghost predicate Valid()
      reads this
    {
      |bits| == Width(range) > 0
    }

    constructor (range: Interval)
      requires !Empty(range)
      ensures Valid() && this.range == range
      ensures forall i :: 0 <= i < |bits| ==> !bits[i]
    {
      this.range := range;
      bits := seq(Width(range), _ => false);
    }

    method SetValue(a: Address, value: bool)
      requires Valid() && InInterval(a, range)
      modifies this`bits
      ensures Valid() && bits == old(bits)[a - range.begin := value]
    {
      bits := bits[a - range.begin := value];
    }

    predicate GetValue(a: Address)
      requires Valid() && InInterval(a, range)
      reads this
    {
      bits[a - range.begin]
    }

    /** None stands for a loop that does not end. */
    method GetBlob() returns (result: Option<seq<bv8>>)
      requires Valid()
      ensures result.Some? <==> Width(range) < 0x1_0000_0000
      ensures result.Some? ==> Encodes(result.value, bits)
    {
      if Width(range) >= 0x1_0000_0000 {
        return None;
      }
      var size := BlobSize(Width(range));
      var blob: seq<bv8> := seq(size, _ => 0);
      ZeroBlob(blob, bits);
      for i := 0 to Width(range)
        invariant |blob| == size && EncodesTo(blob, bits, i)
      {
        SetBitKeeps(blob, bits, i);
        if bits[i] {
          blob := blob[i / 8 := blob[i / 8] | Bit(i % 8)];
        }
      }
      result := Some(blob);
    }

    /** The maximal runs of addresses with the given value, in increasing order. */
    method GetContiguousRanges(value: bool) returns (ranges: seq<Interval>)
      requires Valid()
      ensures Covered(ranges) == WithValue(bits, range.begin, range.end, value)
      ensures Separate(ranges, range.end)
    {
      hide Covered, WithValue, Points, Separate;
      ranges := [];
      var inRange := false;
      var rangeBegin: Address := 0;
      var i := range.begin;
      NoRuns(bits, range.begin, value);
      while i != range.end
        invariant range.begin <= i <= range.end
        invariant inRange ==>
                    range.begin <= rangeBegin < i && AllAre(bits, rangeBegin - range.begin, i - range.begin, value)
        invariant Separate(ranges, (if inRange then rangeBegin else i) - 1)
        invariant Covered(ranges) == WithValue(bits, range.begin, if inRange then rangeBegin else i, value)
        decreases range.end - i
      {
        if !inRange && GetValue(i) == value {
          inRange, rangeBegin := true, i;
        } else if inRange && GetValue(i) != value {
          inRange := false;
          CloseRun(bits, range.begin, rangeBegin, i, value, ranges);
          ranges := ranges + [Interval(rangeBegin, i)];
          SkipOne(bits, range.begin, i, value, ranges);
        } else if !inRange {
          SkipOne(bits, range.begin, i, value, ranges);
        }
        i := i + 1;
      }
      if inRange {
        CloseRun(bits, range.begin, rangeBegin, i, value, ranges);
        ranges := ranges + [Interval(rangeBegin, range.end)];
      } else {
        SeparateWider(ranges, i - 1, i);
      }
    }
  }

  // ---------------------------------------------------------------- encoding

  /** The constructor from a range and a blob. Its assertion lets a blob through that is one byte
      short; beyond is whatever byte lies after it. None stands for a loop that does not end. */
  method FromBlob(range: Interval, blob: seq<bv8>, beyond: bv8) returns (result: Option<AddressBitmap>)
    requires !Empty(range) && |blob| >= Width(range) / 8
    ensures result.Some? <==> Width(range) < 0x1_0000_0000
    ensures result.Some? ==> fresh(result.value) && result.value.Valid() && result.value.range == range
    ensures result.Some? ==>
              forall i: nat :: i < Width(range) ==> result.value.bits[i] == BitOf(blob + [beyond], i)
  {
    if Width(range) >= 0x1_0000_0000 {
      return None;
    }
    var b := new AddressBitmap(range);
    for i := 0 to Width(range)
      invariant fresh(b) && b.Valid() && b.range == range
      invariant forall j: nat :: j < i ==> b.bits[j] == BitOf(blob + [beyond], j)
    {
      b.bits := b.bits[i := BitOf(blob + [beyond], i)];
    }
    result := Some(b);
  }

  /** The first n bits are in the blob and the rest are zero. */
  ghost predicate EncodesTo(blob: seq<bv8>, bits: seq<bool>, n: nat)
    requires n <= |bits|
  {
    forall j: nat :: j < 8 * |blob| ==> (BitOf(blob, j) <==> j < n && bits[j])
  }

  lemma ZeroBlob(blob: seq<bv8>, bits: seq<bool>)
    requires forall k :: 0 <= k < |blob| ==> blob[k] == 0
    ensures EncodesTo(blob, bits, 0)
  {
    forall j: nat | j < 8 * |blob| ensures !BitOf(blob, j) {
      TestZero(j % 8);
    }
  }

  lemma SetBitKeeps(blob: seq<bv8>, bits: seq<bool>, i: nat)
    requires i < |bits| && i / 8 < |blob| && EncodesTo(blob, bits, i)
    ensures EncodesTo(if bits[i] then blob[i / 8 := blob[i / 8] | Bit(i % 8)] else blob, bits, i + 1)
  {
    if bits[i] {
      var blob' := blob[i / 8 := blob[i / 8] | Bit(i % 8)];
      forall j: nat | j < 8 * |blob'| ensures BitOf(blob', j) <==> j < i + 1 && bits[j] {
        SetBit(blob, i, j);
      }
    }
  }

  // ---------------------------------------------------------------- runs

  ghost function Points(r: Interval): set<int> {
    set a: int | r.begin <= a < r.end && InInterval(a, r)
  }

  ghost function Covered(ranges: seq<Interval>): set<int> {
    if ranges == [] then {} else Covered(ranges[..|ranges| - 1]) + Points(ranges[|ranges| - 1])
  }

  ghost predicate Has(bits: seq<bool>, begin: int, a: int, value: bool) {
    0 <= a - begin < |bits| && bits[a - begin] == value
  }

  /** The addresses from begin to end whose bit has the value. */
  ghost function WithValue(bits: seq<bool>, begin: int, end: int, value: bool): set<int> {
    set a: int | begin <= a < end && Has(bits, begin, a, value)
  }

  ghost predicate AllAre(bits: seq<bool>, lo: int, hi: int, value: bool) {
    0 <= lo <= hi <= |bits| && forall j :: lo <= j < hi ==> bits[j] == value
  }

  /** Non-empty, increasing, with at least one address between one and the next, up to hi. */
  ghost predicate Separate(ranges: seq<Interval>, hi: int) {
    && (forall k :: 0 <= k < |ranges| ==> !Empty(ranges[k]) && ranges[k].end <= hi)
    && (forall k :: 0 < k < |ranges| ==> ranges[k - 1].end < ranges[k].begin)
  }

  lemma NoRuns(bits: seq<bool>, begin: int, value: bool)
    ensures Covered([]) == WithValue(bits, begin, begin, value) && forall hi :: Separate([], hi)
  {
  }

  lemma SeparateWider(ranges: seq<Interval>, hi: int, hi': int)
    requires Separate(ranges, hi) && hi <= hi'
    ensures Separate(ranges, hi')
  {
  }

  /** A run that ends at i is added to the list. */
  lemma CloseRun(bits: seq<bool>, begin: int, b: Word, i: Word, value: bool, ranges: seq<Interval>)
    requires 0 <= begin <= b < i && AllAre(bits, b - begin, i - begin, value)
    requires Separate(ranges, b - 1) && Covered(ranges) == WithValue(bits, begin, b, value)
    ensures Separate(ranges + [Interval(b, i)], i)
    ensures Covered(ranges + [Interval(b, i)]) == WithValue(bits, begin, i, value)
  {
    var more := ranges + [Interval(b, i)];
    assert more[..|ranges|] == ranges;
    assert WithValue(bits, begin, i, value) == WithValue(bits, begin, b, value) + Points(Interval(b, i));
  }

  /** An address with the other value extends nothing. */
  lemma SkipOne(bits: seq<bool>, begin: int, i: int, value: bool, ranges: seq<Interval>)
    requires 0 <= i - begin < |bits| && bits[i - begin] != value
    requires Separate(ranges, i) || Separate(ranges, i - 1)
    ensures WithValue(bits, begin, i + 1, value) == WithValue(bits, begin, i, value)
    ensures Separate(ranges, i)
  {
  }

  // ---------------------------------------------------------------- from ranges to bitmaps

  ghost function Elements(s: seq<int>): set<int> {
    set a | a in s
  }

  lemma InsertElements(s: seq<Address>, a: Address)
    requires Increasing(s)
    ensures forall i :: 0 <= i < |Insert(s, a)| ==> 0 <= Insert(s, a)[i] < WORD
    ensures Elements(Insert(s, a)) == Elements(s) + {a}
  {
    assert forall i :: 0 <= i < |Insert(s, a)| ==> Insert(s, a)[i] in Insert(s, a);
  }

  lemma ElementsOfOne(a: Address)
    ensures Elements([a]) == {a}
  {
  }

  lemma ElementsConcat(s: seq<Address>, t: seq<Address>)
    ensures Elements(s + t) == Elements(s) + Elements(t)
  {
    assert forall x :: x in s + t <==> x in s || x in t;
  }

  /** The set of unique addresses in the ranges. */
  method CollectAddresses(ranges: seq<Interval>) returns (s: seq<Address>)
    ensures Increasing(s) && Elements(s) == Covered(ranges)
  {
    s := [];
    for i := 0 to |ranges|
      invariant Increasing(s) && Elements(s) == Covered(ranges[..i])
    {
      var r := ranges[i];
      assert ranges[..i + 1][..i] == ranges[..i];
      for j := r.begin to r.end
        invariant Increasing(s) && Elements(s) == Covered(ranges[..i]) + Points(Interval(r.begin, j))
      {
        InsertElements(s, j);
        s := Insert(s, j);
        assert Points(Interval(r.begin, j + 1)) == Points(Interval(r.begin, j)) + {j};
      }
    }
    assert ranges[..|ranges|] == ranges;
  }

  lemma {:induction false} CoveredBelowTop(ranges: seq<Interval>, a: int)
    requires a in Covered(ranges)
    ensures a + 1 < WORD
  {
    if a !in Points(ranges[|ranges| - 1]) {
      CoveredBelowTop(ranges[..|ranges| - 1], a);
    }
  }

  /** No address of the set is the highest one, so the range around the set does not wrap. */
  ghost predicate BelowTop(s: seq<Address>) {
    forall i :: 0 <= i < |s| ==> s[i] + 1 < WORD
  }

  /** From the first address of a set to just past its last. */
  function RangeOf(c: seq<Address>): Interval
    requires Increasing(c) && c != [] && BelowTop(c)
  {
    Interval(c[0], c[|c| - 1] + 1)
  }

  /** The bitmap covers the set's range and marks exactly its addresses. */
  ghost predicate Marks(range: Interval, bits: seq<bool>, c: seq<Address>) {
    && Increasing(c) && c != [] && BelowTop(c)
    && range.begin == c[0] && range.end == c[|c| - 1] + 1 && |bits| == Width(range)
    && forall a: Address :: InInterval(a, range) ==> (bits[a - range.begin] <==> a in c)
  }

  method MakeBitmap(c: seq<Address>) returns (b: AddressBitmap)
    requires Increasing(c) && c != [] && BelowTop(c)
    ensures fresh(b) && b.Valid() && Marks(b.range, b.bits, c)
  {
    b := new AddressBitmap(RangeOf(c));
    for j := 0 to |c|
      invariant b.Valid() && fresh(b) && b.range == RangeOf(c)
      invariant forall a: Address :: InInterval(a, b.range) ==> (b.bits[a - b.range.begin] <==> a in c[..j])
    {
      b.SetValue(c[j], true);
      assert c[..j + 1] == c[..j] + [c[j]];
    }
    assert c[..|c|] == c;
  }

  /** The same worklist as partitionAddressSet, keeping each final set as a bitmap. The sets are
      returned for the contract only. */
  method PartitionAddressRanges(ranges: seq<Interval>)
    returns (bitmaps: seq<AddressBitmap>, ghost addresses: seq<Address>, ghost sets: seq<seq<Address>>)
    ensures Increasing(addresses) && Elements(addresses) == Covered(ranges)
    ensures multiset(sets) == multiset(Clusters(addresses)) && |sets| == |bitmaps|
    ensures (forall k :: 0 <= k < |bitmaps| ==> fresh(bitmaps[k])) && AllMark(bitmaps, sets)
  {
    hide Accounted, QueueWeight, Clusters, Covered, Elements, AllMark, AllBelowTop;
    var s0 := CollectAddresses(ranges);
    CollectedBelowTop(s0, ranges);
    addresses, sets, bitmaps := s0, [], [];
    var queue := [s0];
    AccountStart(s0);
    QueueOfOne(s0);
    NoBitmaps();
    while queue != []
      invariant Accounted(addresses, sets, queue) && AllBelowTop(queue)
      invariant |sets| == |bitmaps| && (forall k :: 0 <= k < |bitmaps| ==> fresh(bitmaps[k]))
      invariant AllMark(bitmaps, sets)
      decreases QueueWeight(queue)
    {
      var s := queue[0];
      AccountFront(addresses, sets, queue);
      QueuePop(queue);
      if |s| == 0 {
        queue := queue[1..];
        continue;
      }
      var at, widest := 0, 0;
      if |s| > 1 {
        at, widest := WidestGap(s);
      }
      if widest > CRITERIA {
        WidestCuts(s, at, widest);
        AccountSplit(addresses, sets, queue, at);
        QueueBelowTop(queue[1..], s, at);
        queue := queue[1..] + [s[..at]] + [s[at..]];
      } else {
        AccountKeep(addresses, sets, queue, widest);
        bitmaps := Keep(bitmaps, sets, s);
        sets, queue := sets + [s], queue[1..];
      }
    }
    AccountEnd(addresses, sets);
  }

  /** Append the bitmap of a final set to the results. */
  method Keep(bitmaps: seq<AddressBitmap>, ghost sets: seq<seq<Address>>, s: seq<Address>)
    returns (more: seq<AddressBitmap>)
    requires |sets| == |bitmaps| && AllMark(bitmaps, sets)
    requires Increasing(s) && s != [] && BelowTop(s)
    ensures |more| == |bitmaps| + 1 && more[..|bitmaps|] == bitmaps && fresh(more[|bitmaps|])
    ensures AllMark(more, sets + [s])
  {
    hide Marks;
    var b := MakeBitmap(s);
    more := bitmaps + [b];
  }

  ghost predicate AllMark(bitmaps: seq<AddressBitmap>, sets: seq<seq<Address>>)
    requires |sets| == |bitmaps|
    reads bitmaps
  {
    forall k :: 0 <= k < |bitmaps| ==> bitmaps[k].Valid() && Marks(bitmaps[k].range, bitmaps[k].bits, sets[k])
  }

  lemma NoBitmaps()
    ensures AllMark([], [])
  {
  }

  lemma QueueOfOne(s: seq<Address>)
    requires BelowTop(s)
    ensures AllBelowTop([s])
  {
  }

  lemma QueuePop(queue: seq<seq<Address>>)
    requires queue != [] && AllBelowTop(queue)
    ensures BelowTop(queue[0]) && AllBelowTop(queue[1..])
  {
  }

  lemma QueueBelowTop(queue: seq<seq<Address>>, s: seq<Address>, at: nat)
    requires AllBelowTop(queue) && at <= |s| && BelowTop(s)
    ensures AllBelowTop(queue + [s[..at]] + [s[at..]])
  {
    assert BelowTop(s[..at]) && BelowTop(s[at..]);
  }

  ghost predicate AllBelowTop(queue: seq<seq<Address>>) {
    forall i :: 0 <= i < |queue| ==> BelowTop(queue[i])
  }

  lemma CollectedBelowTop(s: seq<Address>, ranges: seq<Interval>)
    requires Elements(s) == Covered(ranges)
    ensures BelowTop(s)
  {
    forall i | 0 <= i < |s| ensures s[i] + 1 < WORD {
      assert s[i] in Elements(s);
      CoveredBelowTop(ranges, s[i]);
    }
  }

  // ---------------------------------------------------------------- to the protocol and back

  /** A bitmap as it is sent: its range and its blob. */
  datatype Entry = Entry(range: Interval, blob: seq<bv8>)

  ghost predicate AllCountable(bitmaps: seq<AddressBitmap>) {
    forall k :: 0 <= k < |bitmaps| ==> Width(bitmaps[k].range) < 0x1_0000_0000
  }

  /** convert(): one entry per bitmap, if all of them can be encoded. */
  method Convert(bitmaps: seq<AddressBitmap>) returns (result: Option<seq<Entry>>)
    requires forall k :: 0 <= k < |bitmaps| ==> bitmaps[k].Valid()
    ensures result.Some? <==> AllCountable(bitmaps)
    ensures result.Some? ==> |result.value| == |bitmaps|
    ensures result.Some? ==> forall k :: 0 <= k < |bitmaps| ==>
              result.value[k].range == bitmaps[k].range && Encodes(result.value[k].blob, bitmaps[k].bits)
  {
    var entries: seq<Entry> := [];
    for i := 0 to |bitmaps|
      invariant |entries| == i && forall k :: 0 <= k < i ==> Countable(Width(bitmaps[k].range))
      invariant forall k :: 0 <= k < i ==>
                entries[k].range == bitmaps[k].range && Encodes(entries[k].blob, bitmaps[k].bits)
    {
      var blob := bitmaps[i].GetBlob();
      if blob.None? {
        return None;
      }
      entries := entries + [Entry(bitmaps[i].range, blob.value)];
    }
    result := Some(entries);
  }

  /** What a blob encodes is what the blob constructor reads back, whatever lies behind the blob. */
  lemma DecodeEncoded(blob: seq<bv8>, beyond: bv8, bits: seq<bool>, bits': seq<bool>)
    requires Encodes(blob, bits) && |bits'| == |bits|
    requires forall i: nat :: i < |bits'| ==> bits'[i] == BitOf(blob + [beyond], i)
    ensures bits' == bits
  {
    forall i: nat | i < |bits|
      ensures bits'[i] == bits[i]
    {
      assert BitOf(blob + [beyond], i) == BitOf(blob, i);
    }
  }

  /** The byte behind a blob has no influence exactly when the blob is not short. */
  lemma ShortBlobIff(width: nat, blob: seq<bv8>)
    requires width > 0 && |blob| >= width / 8
    ensures (forall i: nat, b: bv8, c: bv8 :: i < width ==> (BitOf(blob + [b], i) <==> BitOf(blob + [c], i)))
       <==> |blob| >= BlobSize(width)
  {
    if |blob| < BlobSize(width) {
      var i := 8 * |blob|;
      assert i < width && i / 8 == |blob| && i % 8 == 0;
      assert BitOf(blob + [1], i) && !BitOf(blob + [0], i);
    }
  }

  ghost function RangesOf(bitmaps: seq<AddressBitmap>): (rs: seq<Interval>)
    ensures |rs| == |bitmaps|
  {
    seq(|bitmaps|, k requires 0 <= k < |bitmaps| => bitmaps[k].range)
  }

  ghost predicate Disjoint(a: Interval, b: Interval) {
    a.end <= b.begin || b.end <= a.begin
  }

  function WidthOf(r: Interval): int {
    Width(r)
  }

  /** Some received bitmap marks the address. */
  ghost predicate Marked(bitmaps: seq<AddressBitmap>, a: Address)
    requires forall k :: 0 <= k < |bitmaps| ==> bitmaps[k].Valid()
    reads bitmaps
  {
    exists k :: 0 <= k < |bitmaps| && InInterval(a, bitmaps[k].range) && bitmaps[k].GetValue(a)
  }

  /** The addresses of the ranges, in increasing order: there is just one such sequence. */
  ghost predicate Enumerates(addresses: seq<Address>, ranges: seq<Interval>) {
    Increasing(addresses) && Elements(addresses) == Covered(ranges)
  }

  lemma {:induction false} EnumerationUnique(s: seq<Address>, t: seq<Address>)
    requires Increasing(s) && Increasing(t) && Elements(s) == Elements(t)
    ensures s == t
  {
    assert t != [] ==> t[0] in Elements(t);
    if s != [] {
      assert s[0] in Elements(t);
      assert t != [] && t[0] in Elements(s);
      var k :| 0 <= k < |t| && t[k] == s[0];
      var j :| 0 <= j < |s| && s[j] == t[0];
      assert s[0] == t[0];
      forall a: int
        ensures a in Elements(s[1..]) <==> a in Elements(t[1..])
      {
        TailElements(s, a);
        TailElements(t, a);
      }
      EnumerationUnique(s[1..], t[1..]);
    }
  }

  lemma TailElements(s: seq<Address>, a: int)
    requires s != [] && Increasing(s)
    ensures a in Elements(s[1..]) <==> a in Elements(s) && a != s[0]
  {
    assert s == [s[0]] + s[1..];
  }

  /** Every cluster of the addresses spans fewer than 2^32 of them. */
  ghost predicate AllNarrow(addresses: seq<Address>)
    requires Increasing(addresses)
  {
    forall k :: 0 <= k < |Clusters(addresses)| ==> Span(Clusters(addresses)[k]) < 0x1_0000_0000
  }

  lemma MarksWidth(range: Interval, bits: seq<bool>, c: seq<Address>)
    requires Marks(range, bits, c)
    ensures Width(range) == Span(c)
  {
  }

  lemma NarrowIff(bitmaps: seq<AddressBitmap>, sets: seq<seq<Address>>, addresses: seq<Address>)
    requires Increasing(addresses) && multiset(sets) == multiset(Clusters(addresses)) && |sets| == |bitmaps|
    requires AllMark(bitmaps, sets)
    ensures AllCountable(bitmaps) <==> AllNarrow(addresses)
  {
    hide Clusters, Span, Marks, Width;
    var cs := Clusters(addresses);
    forall k | 0 <= k < |bitmaps|
      ensures Width(bitmaps[k].range) == Span(sets[k])
    {
      MarksWidth(bitmaps[k].range, bitmaps[k].bits, sets[k]);
    }
    if AllCountable(bitmaps) {
      forall k | 0 <= k < |cs|
        ensures Span(cs[k]) < 0x1_0000_0000
      {
        assert cs[k] in multiset(sets);
        var j :| 0 <= j < |sets| && sets[j] == cs[k];
      }
    }
    if AllNarrow(addresses) {
      forall k | 0 <= k < |bitmaps|
        ensures Width(bitmaps[k].range) < 0x1_0000_0000
      {
        assert sets[k] in multiset(cs);
        var j :| 0 <= j < |cs| && cs[j] == sets[k];
      }
    }
  }

  /** Across a gap of 2^63 or more a cluster is far too wide. */
  lemma NarrowHasNoHugeGap(s: seq<Address>)
    requires Increasing(s) && AllNarrow(s)
    ensures NoHugeGap(s)
  {
    hide Clusters;
    forall a: Address, b: Address | Neighbours(s, a, b) && a < b ensures b - a - 1 < 0x8000_0000_0000_0000 {
      if b - a - 1 >= 0x8000_0000_0000_0000 {
        var i :| 0 < i < |s| && s[i - 1] == a && s[i] == b;
        var k := NeighboursStay(s, i);
        ClustersAreMaximalRuns(s);
        SpanHolds(Clusters(s)[k], a, b);
        assert false;
      }
    }
  }

  lemma SpanHolds(c: seq<Address>, a: Address, b: Address)
    requires Increasing(c) && Neighbours(c, a, b)
    ensures Span(c) >= b as int - a as int + 1
  {
    var i :| 0 < i < |c| && c[i - 1] == a && c[i] == b;
    assert c[0] <= c[i - 1] && c[i] <= c[|c| - 1];
  }

  /** Two ranges of one address each whose cluster is too wide to be encoded. */
  lemma TooWide(addresses: seq<Address>)
    requires Enumerates(addresses, [Interval(0, 1), Interval(0x8000_0000_0000_0001, 0x8000_0000_0000_0002)])
    ensures !AllNarrow(addresses)
  {
    hide Clusters;
    var far: Address := 0x8000_0000_0000_0001;
    var ranges := [Interval(0, 1), Interval(far, far + 1)];
    TwoCovered(far);
    assert Elements([0, far]) == {0, far as int};
    EnumerationUnique(addresses, [0, far]);
    HugeGapIsKept();
    assert Clusters(addresses)[0] == [0, far];
  }

  lemma TwoCovered(far: Address)
    requires 1 < far && far + 1 < WORD
    ensures Covered([Interval(0, 1), Interval(far, far + 1)]) == {0, far as int}
  {
    var first, second := Interval(0, 1), Interval(far, far + 1);
    assert [first, second][..1] == [first] && [first][..0] == [];
    assert Covered([first]) == Covered([]) + Points(first);
    assert Points(first) == {0} && Points(second) == {far as int};
  }

  /** ROUND TRIP. Ranges are collected, partitioned, put into bitmaps, encoded, sent and decoded. This
      comes to an end exactly when every cluster is narrower than 2^32, and then what is marked is
      exactly what the ranges covered, in pairwise disjoint bitmap ranges, which together are at most
      161 times as wide as there are addresses. */
  method SendAndReceive(ranges: seq<Interval>, beyond: bv8) returns (result: Option<seq<AddressBitmap>>)
    ensures exists addresses :: Enumerates(addresses, ranges)
    ensures forall addresses :: Enumerates(addresses, ranges) ==>
              (result.Some? <==> AllNarrow(addresses)) && (result.Some? ==> RoundTrip(ranges, result.value, addresses))
  {
    hide Clusters, Covered, RoundTrip, AllNarrow, AllCountable, Elements;
    ghost var addresses, sets;
    var bitmaps;
    bitmaps, addresses, sets := PartitionAddressRanges(ranges);
    assert Enumerates(addresses, ranges);
    forall other | Enumerates(other, ranges)
      ensures other == addresses
    {
      EnumerationUnique(other, addresses);
    }
    NarrowIff(bitmaps, sets, addresses);
    var entries := Convert(bitmaps);
    if entries.None? {
      return None;
    }
    var received := Receive(bitmaps, sets, entries.value, beyond);
    ReceivedIsRoundTrip(ranges, received, sets, addresses);
    result := Some(received);
  }

  ghost predicate RoundTrip(ranges: seq<Interval>, received: seq<AddressBitmap>, addresses: seq<Address>)
    reads received
  {
    && (forall k :: 0 <= k < |received| ==> received[k].Valid())
    && (forall a: Address :: a in Covered(ranges) <==> Marked(received, a))
    && Pairwise(Disjoint, RangesOf(received))
    && SumBy(WidthOf, RangesOf(received)) <= 161 * |addresses|
  }

  /** The blob constructor on every entry. */
  method Receive(bitmaps: seq<AddressBitmap>, ghost sets: seq<seq<Address>>, entries: seq<Entry>, beyond: bv8)
    returns (received: seq<AddressBitmap>)
    requires |sets| == |bitmaps| == |entries| && AllMark(bitmaps, sets) && AllCountable(bitmaps)
    requires forall k :: 0 <= k < |bitmaps| ==>
              entries[k].range == bitmaps[k].range && Encodes(entries[k].blob, bitmaps[k].bits)
    ensures |received| == |bitmaps| && AllMark(received, sets)
  {
    received := [];
    for i := 0 to |entries|
      invariant |received| == i && AllMark(bitmaps, sets)
      invariant forall k :: 0 <= k < |bitmaps| ==> Encodes(entries[k].blob, bitmaps[k].bits)
      invariant forall k :: 0 <= k < i ==> received[k].Valid() && Marks(received[k].range, received[k].bits, sets[k])
    {
      var b := FromBlob(entries[i].range, entries[i].blob, beyond);
      DecodeEncoded(entries[i].blob, beyond, bitmaps[i].bits, b.value.bits);
      received := received + [b.value];
    }
  }

  lemma ReceivedIsRoundTrip(ranges: seq<Interval>, received: seq<AddressBitmap>, sets: seq<seq<Address>>,
                            addresses: seq<Address>)
    requires Increasing(addresses) && multiset(sets) == multiset(Clusters(addresses)) && |sets| == |received|
    requires Elements(addresses) == Covered(ranges) && AllMark(received, sets) && AllNarrow(addresses)
    ensures RoundTrip(ranges, received, addresses)
  {
    NarrowHasNoHugeGap(addresses);
    ReceivedMarks(received, sets, addresses);
    forall a: Address ensures a in Covered(ranges) <==> Marked(received, a) {
      assert a in Elements(addresses) <==> a in addresses;
    }
    ReceivedRanges(RangesOf(received), sets, addresses);
  }

  lemma ReceivedMarks(received: seq<AddressBitmap>, sets: seq<seq<Address>>, addresses: seq<Address>)
    requires Increasing(addresses) && multiset(sets) == multiset(Clusters(addresses)) && |sets| == |received|
    requires forall k :: 0 <= k < |received| ==>
              received[k].Valid() && Marks(received[k].range, received[k].bits, sets[k])
    ensures forall a: Address :: a in addresses <==> Marked(received, a)
  {
    forall a: Address ensures a in addresses <==> Marked(received, a) {
      CoversExactly(addresses, sets, a);
      if k :| 0 <= k < |sets| && a in sets[k] {
        InOwnRange(sets[k], a);
        assert received[k].GetValue(a);
      }
    }
  }

  lemma InOwnRange(c: seq<Address>, a: Address)
    requires Increasing(c) && c != [] && BelowTop(c) && a in c
    ensures InInterval(a, RangeOf(c))
  {
  }

  lemma ReceivedRanges(rs: seq<Interval>, sets: seq<seq<Address>>, addresses: seq<Address>)
    requires Increasing(addresses) && multiset(sets) == multiset(Clusters(addresses)) && |sets| == |rs|
    requires forall k :: 0 <= k < |rs| ==>
              sets[k] != [] && Increasing(sets[k]) && BelowTop(sets[k]) && rs[k] == RangeOf(sets[k])
    ensures Pairwise(Disjoint, rs)
    ensures NoHugeGap(addresses) ==> SumBy(WidthOf, rs) <= 161 * |addresses|
  {
    DisjointSpans(addresses, sets);
    forall i, j | 0 <= i < |rs| && 0 <= j < |rs| && i != j ensures Disjoint(rs[i], rs[j]) {
      assert Below(sets[i], sets[j]);
    }
    if NoHugeGap(addresses) {
      TotalSpan(addresses, sets);
      WidthsAreSpans(rs, sets);
    }
  }

  lemma {:induction false} WidthsAreSpans(rs: seq<Interval>, sets: seq<seq<Address>>)
    requires |sets| == |rs|
    requires forall k :: 0 <= k < |rs| ==>
              sets[k] != [] && Increasing(sets[k]) && BelowTop(sets[k]) && rs[k] == RangeOf(sets[k])
    ensures SumBy(WidthOf, rs) == SumBy(Span, sets)
  {
    if rs != [] {
      WidthsAreSpans(rs[1..], sets[1..]);
    }
  }
}
