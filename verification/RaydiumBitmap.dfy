/**
  Tick arrays of a concentrated-liquidity pool and the bitmaps that say which of them exist: 1024 bits
  in the pool account around zero, and an extension account with 14 groups of 512 bits on each side.
 */
module RaydiumBitmap {
  import opened Wrappers
  import opened Bytes

  const TICK_ARRAY_SIZE := 60
  const TICK_ARRAY_BITMAP_SIZE := 512
  const MIN_TICK := -443636
  const MAX_TICK := 443636
  const POOL_TICK_ARRAY_BITMAP_OFFSET: nat := 832
  const POOL_TICK_ARRAY_BITMAP_WORDS: nat := 16
  const BITMAP_EXTENSION_DISCRIMINATOR: seq<Byte> := [60, 150, 36, 219, 97, 128, 139, 153]
  const BITMAP_EXTENSION_HEADER_LEN: nat := 8 + 32
  const BITMAP_EXTENSION_GROUPS: nat := 14
  const BITMAP_EXTENSION_BYTES_PER_GROUP: nat := 8 * 8
  const BITMAP_EXTENSION_MIN_LEN: nat :=
    BITMAP_EXTENSION_HEADER_LEN + 2 * BITMAP_EXTENSION_GROUPS * BITMAP_EXTENSION_BYTES_PER_GROUP

  datatype BitmapError = InvalidLength | InvalidDiscriminator | InvalidTickSpacing | ScanOverflow

  datatype BitPosition = BitPosition(positive: bool, group: nat, bit: nat)

  /** Ticks covered by one tick array. */
  function Width(spacing: nat): nat {
    TICK_ARRAY_SIZE * spacing
  }

  function TickArrayStartIndex(tick: int, spacing: nat): int
    requires spacing > 0
  {
    var start := TruncDiv(tick, Width(spacing));
    var floored := if tick < 0 && TruncMod(tick, Width(spacing)) != 0 then start - 1 else start;
    floored * Width(spacing)
  }

  /** Where the extension keeps the bit of a tick array, if it keeps one. */
  function BitmapExtensionPosition(start: int, spacing: nat): Result<Option<BitPosition>, BitmapError> {
    if spacing == 0 then Err(InvalidTickSpacing)
    else
      var width := Width(spacing);
      var max := width * TICK_ARRAY_BITMAP_SIZE;
      if -max <= start < max then Ok(None)
      else
        var distance := Abs(start);
        var remainder := distance % max;
        Ok(PositionAt(start > 0, distance / max, remainder == 0, remainder / width))
  }

  /**
    The position of a tick array so many whole groups away from zero and so many arrays beyond them.
    Going down, groups and bits are counted from the far end.
   */
  function PositionAt(positive: bool, groups: int, exact: bool, arrays: int): Option<BitPosition> {
    var group := groups - 1 - if !positive && exact then 1 else 0;
    if !(0 <= group < BITMAP_EXTENSION_GROUPS) then None
    else
      var bit := if !positive && !exact then TICK_ARRAY_BITMAP_SIZE - arrays else arrays;
      if !(0 <= bit < TICK_ARRAY_BITMAP_SIZE) then None else Some(BitPosition(positive, group, bit))
  }

  predicate ValidPosition(p: BitPosition) {
    p.group < BITMAP_EXTENSION_GROUPS && p.bit < TICK_ARRAY_BITMAP_SIZE
  }

  /** Index of the tick array, counted in array widths, that owns a position of the extension. */
  function OwnerOf(p: BitPosition): int {
    if p.positive then (p.group + 1) * TICK_ARRAY_BITMAP_SIZE + p.bit
    else -(p.group + 2) * TICK_ARRAY_BITMAP_SIZE + p.bit
  }

  /** Tick arrays beyond the pool's own bitmap, as far as the extension reaches. */
  predicate InExtension(n: int) {
    || TICK_ARRAY_BITMAP_SIZE <= n < (BITMAP_EXTENSION_GROUPS + 1) * TICK_ARRAY_BITMAP_SIZE
    || -(BITMAP_EXTENSION_GROUPS + 1) * TICK_ARRAY_BITMAP_SIZE <= n < -TICK_ARRAY_BITMAP_SIZE
  }

  predicate InPoolBitmap(n: int) {
    -TICK_ARRAY_BITMAP_SIZE <= n < TICK_ARRAY_BITMAP_SIZE
  }

  // ---------- tick array starts ----------

  lemma FloorOf(tick: int, w: nat)
    requires w > 0
    ensures (if tick < 0 && TruncMod(tick, w) != 0 then TruncDiv(tick, w) - 1 else TruncDiv(tick, w)) == tick / w
    ensures tick / w * w <= tick < tick / w * w + w
  {
    var f, m := tick / w, tick % w;
    assert tick == f * w + m;
    if tick < 0 {
      var a, b := (-tick) / w, (-tick) % w;
      assert -tick == a * w + b;
      if b == 0 {
        assert tick == (-a) * w;
        FloorUnique(tick, w, -a);
      } else {
        assert tick == (-a - 1) * w + (w - b);
        FloorUnique(tick, w, -a - 1);
      }
    }
  }

  lemma FloorUnique(x: int, w: nat, f: int)
    requires w > 0 && f * w <= x < f * w + w
    ensures x / w == f
  {
    var g, m := x / w, x % w;
    assert x == g * w + m;
    if g < f { StepApart(g, f, w); }
    if f < g { StepApart(f, g, w); }
  }

  lemma StepApart(a: int, b: int, w: nat)
    requires a < b
    ensures a * w + w <= b * w
  {
    MulOrder(1, b - a, w);
    assert (b - a) * w == b * w - a * w;
  }

  /** The start of a tick's array is the multiple of the width at or below the tick. */
  lemma StartIsFloor(tick: int, spacing: nat)
    requires spacing > 0
    ensures var start, w := TickArrayStartIndex(tick, spacing), Width(spacing);
            start == tick / w * w && start <= tick < start + w
  {
    FloorOf(tick, Width(spacing));
  }

  // ---------- positions ----------

  /** Dividing by a whole group of arrays is dividing the array count. */
  lemma GroupOf(a: nat, w: nat)
    requires w > 0
    ensures (a * w) / (w * 512) == a / 512
    ensures (a * w) % (w * 512) == (a % 512) * w
    ensures ((a % 512) * w) / w == a % 512
    ensures (a % 512) * w == 0 <==> a % 512 == 0
  {
    var q, m := a / 512, a % 512;
    assert a == q * 512 + m;
    assert a * w == q * (w * 512) + m * w by {
      assert (q * 512 + m) * w == q * (w * 512) + m * w;
    }
    MulOrder(m + 1, 512, w);
    assert (m + 1) * w == m * w + w;
    QuotientIs(a * w, w * 512, q, m * w);
    QuotientIs(m * w, w, m, 0);
    if m > 0 { MulOrder(1, m, w); }
  }

  lemma SignedOrder(a: int, b: int, w: nat)
    requires w > 0
    ensures a * w < b * w <==> a < b
    ensures a * w <= b * w <==> a <= b
  {
    if a < b { StepApart(a, b, w); }
    if b < a { StepApart(b, a, w); }
  }

  /** The position of the array with index `n`, in array widths. */
  lemma PositionByIndex(n: int, spacing: nat)
    requires spacing > 0
    ensures BitmapExtensionPosition(n * Width(spacing), spacing)
            == Ok(if InPoolBitmap(n) then None else PositionAt(n > 0, Abs(n) / 512, Abs(n) % 512 == 0, Abs(n) % 512))
  {
    hide PositionAt;
    var w := Width(spacing);
    BaseRangeByIndex(n, w);
    DistanceByIndex(n, w);
    GroupOf(Abs(n), w);
  }

  lemma BaseRangeByIndex(n: int, w: nat)
    requires w > 0
    ensures -(w * TICK_ARRAY_BITMAP_SIZE) <= n * w < w * TICK_ARRAY_BITMAP_SIZE <==> InPoolBitmap(n)
    ensures n * w > 0 <==> n > 0
  {
    SignedOrder(-512, n, w);
    SignedOrder(n, 512, w);
    SignedOrder(0, n, w);
  }

  lemma DistanceByIndex(n: int, w: nat)
    ensures Abs(n * w) == Abs(n) * w
  {
    if n >= 0 {
      MulOrder(0, n, w);
    } else {
      MulOrder(0, -n, w);
      assert n * w == -((-n) * w);
    }
  }

  /** The position of an index, in the extension's reach exactly when there is one. */
  lemma PositionInReach(n: int)
    requires !InPoolBitmap(n)
    ensures var p := PositionAt(n > 0, Abs(n) / 512, Abs(n) % 512 == 0, Abs(n) % 512);
            && (p.Some? <==> InExtension(n))
            && (p.Some? ==> ValidPosition(p.value) && OwnerOf(p.value) == n)
  {}

  /** A tick array has a position exactly when it is in the extension's reach, and it owns that position. */
  lemma ArrayOwnsItsPosition(n: int, spacing: nat)
    requires spacing > 0
    ensures var r := BitmapExtensionPosition(n * Width(spacing), spacing);
            && r.Ok?
            && (r.value.Some? <==> InExtension(n))
            && (r.value.Some? ==> ValidPosition(r.value.value) && OwnerOf(r.value.value) == n)
  {
    hide BitmapExtensionPosition;
    PositionByIndex(n, spacing);
    if !InPoolBitmap(n) { PositionInReach(n); }
  }

  /** Every position is the position of its owner, which is in the extension's reach. */
  lemma PositionHasOneOwner(p: BitPosition, spacing: nat)
    requires spacing > 0 && ValidPosition(p)
    ensures InExtension(OwnerOf(p))
    ensures BitmapExtensionPosition(OwnerOf(p) * Width(spacing), spacing) == Ok(Some(p))
  {
    hide BitmapExtensionPosition;
    PositionByIndex(OwnerOf(p), spacing);
  }

  /** Number of the bit in the extension account, counted from the end of its header. */
  function BitNumber(p: BitPosition): nat {
    (if p.positive then 0 else BITMAP_EXTENSION_GROUPS * TICK_ARRAY_BITMAP_SIZE)
        + p.group * TICK_ARRAY_BITMAP_SIZE + p.bit
  }

  /** Positions fill the extension's bits without overlap. */
  lemma PositionsFillExtension(k: nat)
    requires k < 2 * BITMAP_EXTENSION_GROUPS * TICK_ARRAY_BITMAP_SIZE
    ensures exists p :: ValidPosition(p) && BitNumber(p) == k
    ensures forall p, q :: ValidPosition(p) && ValidPosition(q) && BitNumber(p) == BitNumber(q) ==> p == q
  {
    var half := BITMAP_EXTENSION_GROUPS * TICK_ARRAY_BITMAP_SIZE;
    var r := k % half;
    var p := BitPosition(k < half, r / TICK_ARRAY_BITMAP_SIZE, r % TICK_ARRAY_BITMAP_SIZE);
    assert ValidPosition(p) && BitNumber(p) == k;
  }

  // ---------- no 32-bit overflow ----------

  /** For every 16-bit spacing the widths, the scanned starts and one step beyond fit 32 bits. */
  lemma ScanFitsI32(spacing: nat)
    requires 0 < spacing <= U16_MAX
    ensures var w := Width(spacing);
            && FitsI32(w) && FitsI32(w * TICK_ARRAY_BITMAP_SIZE) && FitsI32(-(w * TICK_ARRAY_BITMAP_SIZE))
            && FitsI32(TickArrayStartIndex(MIN_TICK, spacing))
            && FitsI32(TickArrayStartIndex(MAX_TICK, spacing) + w)
  {
    StartIsFloor(MIN_TICK, spacing);
    StartIsFloor(MAX_TICK, spacing);
  }

  // ---------- the bits ----------

  function WordAt(data: seq<Byte>, offset: nat): nat
    requires offset + 8 <= |data|
  {
    FromLe(data[offset..offset + 8])
  }

  function BitmapExtensionBitIsSet(data: seq<Byte>, p: BitPosition): bool
    requires |data| >= BITMAP_EXTENSION_MIN_LEN && ValidPosition(p)
  {
    var sideOffset := if p.positive then 0 else BITMAP_EXTENSION_GROUPS * BITMAP_EXTENSION_BYTES_PER_GROUP;
    var groupOffset := BITMAP_EXTENSION_HEADER_LEN + sideOffset + p.group * BITMAP_EXTENSION_BYTES_PER_GROUP;
    BitSet(WordAt(data, groupOffset + p.bit / 64 * 8), p.bit % 64)
  }

  /** The test of a position reads exactly the bit of its number, and no other. */
  lemma TestReadsItsBit(data: seq<Byte>, p: BitPosition)
    requires |data| >= BITMAP_EXTENSION_MIN_LEN && ValidPosition(p)
    ensures BitNumber(p) / 8 + BITMAP_EXTENSION_HEADER_LEN < |data|
    ensures BitmapExtensionBitIsSet(data, p)
            <==> BitSet(data[BITMAP_EXTENSION_HEADER_LEN + BitNumber(p) / 8], BitNumber(p) % 8)
  {
    hide BitSet;
    var sideOffset := if p.positive then 0 else BITMAP_EXTENSION_GROUPS * BITMAP_EXTENSION_BYTES_PER_GROUP;
    var offset := BITMAP_EXTENSION_HEADER_LEN + sideOffset + p.group * BITMAP_EXTENSION_BYTES_PER_GROUP
        + p.bit / 64 * 8;
    WordBitIsByteBit(data[offset..offset + 8], p.bit % 64);
    assert offset + p.bit % 64 / 8 == BITMAP_EXTENSION_HEADER_LEN + BitNumber(p) / 8;
  }

  /** Bit `k` of the pool account's bitmap, counted from its lowest tick array. */
  function PoolBitIsSet(data: seq<Byte>, k: nat): bool
    requires |data| >= POOL_TICK_ARRAY_BITMAP_OFFSET + POOL_TICK_ARRAY_BITMAP_WORDS * 8
    requires k < POOL_TICK_ARRAY_BITMAP_WORDS * 64
  {
    BitSet(WordAt(data, POOL_TICK_ARRAY_BITMAP_OFFSET + k / 64 * 8), k % 64)
  }

  /** What the pool account says about the tick array with index `n`. */
  predicate MarkedInPool(data: seq<Byte>, n: int)
    requires |data| >= POOL_TICK_ARRAY_BITMAP_OFFSET + POOL_TICK_ARRAY_BITMAP_WORDS * 8
  {
    InPoolBitmap(n) && PoolBitIsSet(data, n + TICK_ARRAY_BITMAP_SIZE)
  }

  /** What the extension account says about the tick array with index `n`. */
  predicate MarkedInExtension(data: seq<Byte>, n: int, spacing: nat)
    requires |data| >= BITMAP_EXTENSION_MIN_LEN && spacing > 0
  {
    ArrayOwnsItsPosition(n, spacing);
    var position := BitmapExtensionPosition(n * Width(spacing), spacing).value;
    position.Some? && BitmapExtensionBitIsSet(data, position.value)
  }

  // ---------- the scans ----------

  predicate Ascending(s: seq<int>) {
    forall i, j :: 0 <= i < j < |s| ==> s[i] < s[j]
  }

  /** Starts of the tick arrays with the given indexes. */
  function Starts(indexes: seq<int>, width: nat): (r: seq<int>)
    ensures |r| == |indexes|
    ensures forall i :: 0 <= i < |r| ==> r[i] == indexes[i] * width
  {
    seq(|indexes|, i requires 0 <= i < |indexes| => indexes[i] * width)
  }

  /** Indexes that the lowest bits of a word mark, the lowest bit being `base`. */
  function WordIndexes(word: nat, base: int, bits: nat): seq<int> {
    if bits == 0 then []
    else WordIndexes(word, base, bits - 1) + if BitSet(word, bits - 1) then [base + bits - 1] else []
  }

  function PoolIndexes(data: seq<Byte>, words: nat): seq<int>
    requires |data| >= POOL_TICK_ARRAY_BITMAP_OFFSET + POOL_TICK_ARRAY_BITMAP_WORDS * 8
    requires words <= POOL_TICK_ARRAY_BITMAP_WORDS
  {
    if words == 0 then []
    else
      PoolIndexes(data, words - 1)
      + WordIndexes(WordAt(data, POOL_TICK_ARRAY_BITMAP_OFFSET + (words - 1) * 8),
                    -TICK_ARRAY_BITMAP_SIZE + (words - 1) * 64, 64)
  }

  function ExtensionIndexes(data: seq<Byte>, spacing: nat, lo: int, hi: int): seq<int>
    requires |data| >= BITMAP_EXTENSION_MIN_LEN && spacing > 0
    decreases hi - lo
  {
    if hi < lo then []
    else ExtensionIndexes(data, spacing, lo, hi - 1) + if MarkedInExtension(data, hi, spacing) then [hi] else []
  }

  /** A list of starts followed by those of other starts that it does not have yet. */
  function WithNew(starts: seq<int>, more: seq<int>): (r: seq<int>)
    ensures starts <= r
    ensures forall x :: x in r <==> x in starts || x in more
  {
    if more == [] then starts
    else
      var n := |more| - 1;
      assert more == more[..n] + [more[n]];
      var rest := WithNew(starts, more[..n]);
      if more[n] in rest then rest else rest + [more[n]]
  }

  predicate NoRepeats(starts: seq<int>) {
    forall i, j :: 0 <= i < j < |starts| ==> starts[i] != starts[j]
  }

  /** Starts are never listed twice. */
  lemma {:induction false} WithNewKeepsApart(starts: seq<int>, more: seq<int>)
    requires NoRepeats(starts)
    ensures NoRepeats(WithNew(starts, more))
  {
    if more != [] { WithNewKeepsApart(starts, more[..|more| - 1]); }
  }

  /** Starts above all earlier ones are appended as they are. */
  lemma {:induction false} WithNewAbove(starts: seq<int>, more: seq<int>)
    requires Ascending(more) && forall x, y :: x in starts && y in more ==> x < y
    ensures WithNew(starts, more) == starts + more
  {
    if more != [] {
      var n := |more| - 1;
      var init := more[..n];
      forall y | y in init ensures y in more && y < more[n] {
        var i :| 0 <= i < n && init[i] == y;
        assert more[i] == y;
      }
      assert more[n] in more;
      WithNewAbove(starts, init);
      assert more[n] !in starts;
      assert starts + more == starts + init + [more[n]];
    } else {
      assert starts + more == starts;
    }
  }

  method PushUniqueStartIndex(starts: seq<int>, start: int) returns (r: seq<int>)
    ensures r == WithNew(starts, [start])
    ensures start in r && |r| <= |starts| + 1
    ensures NoRepeats(starts) ==> NoRepeats(r)
  {
    assert [start][..0] == [];
    if start !in starts { r := starts + [start]; } else { r := starts; }
  }

  /** Arrays with higher indexes have higher starts, so that none of theirs is listed yet. */
  lemma StartsAbove(below: seq<int>, above: seq<int>, width: nat)
    requires width > 0 && Ascending(above)
    requires forall x, y :: x in below && y in above ==> x < y
    ensures WithNew(Starts(below, width), Starts(above, width)) == Starts(below + above, width)
  {
    hide WithNew;
    var a, b := Starts(below, width), Starts(above, width);
    forall i, j | 0 <= i < j < |b| ensures b[i] < b[j] { SignedOrder(above[i], above[j], width); }
    forall x, y | x in a && y in b ensures x < y {
      var i :| 0 <= i < |a| && a[i] == x;
      var j :| 0 <= j < |b| && b[j] == y;
      assert below[i] in below && above[j] in above;
      SignedOrder(below[i], above[j], width);
    }
    WithNewAbove(a, b);
    assert a + b == Starts(below + above, width);
  }

  lemma {:induction false} WordIndexesMeaning(word: nat, base: int, bits: nat)
    ensures Ascending(WordIndexes(word, base, bits))
    ensures forall n :: n in WordIndexes(word, base, bits) <==> MarkedInWord(word, base, bits, n)
  {
    hide BitSet;
    if bits > 0 {
      WordIndexesMeaning(word, base, bits - 1);
      AscendingConcat(WordIndexes(word, base, bits - 1), if BitSet(word, bits - 1) then [base + bits - 1] else []);
    }
  }

  predicate MarkedInWord(word: nat, base: int, bits: nat, n: int) {
    base <= n < base + bits && BitSet(word, n - base)
  }

  lemma {:induction false} PoolIndexesMeaning(data: seq<Byte>, words: nat)
    requires |data| >= POOL_TICK_ARRAY_BITMAP_OFFSET + POOL_TICK_ARRAY_BITMAP_WORDS * 8
    requires words <= POOL_TICK_ARRAY_BITMAP_WORDS
    ensures Ascending(PoolIndexes(data, words))
    ensures forall n ::
              n in PoolIndexes(data, words) <==> MarkedInPool(data, n) && n < -TICK_ARRAY_BITMAP_SIZE + words * 64
  {
    hide WordAt, MarkedInWord, MarkedInPool;
    if words > 0 {
      var base := -TICK_ARRAY_BITMAP_SIZE + (words - 1) * 64;
      var word := WordAt(data, POOL_TICK_ARRAY_BITMAP_OFFSET + (words - 1) * 8);
      PoolIndexesMeaning(data, words - 1);
      WordIndexesMeaning(word, base, 64);
      forall n ensures MarkedInWord(word, base, 64, n) <==> MarkedInPool(data, n) && base <= n < base + 64 {
        PoolWordMark(data, words - 1, n);
      }
      AscendingConcat(PoolIndexes(data, words - 1), WordIndexes(word, base, 64));
    } else {
      forall n ensures MarkedInPool(data, n) ==> n >= -TICK_ARRAY_BITMAP_SIZE { PoolMarkInRange(data, n); }
    }
  }

  lemma PoolMarkInRange(data: seq<Byte>, n: int)
    requires |data| >= POOL_TICK_ARRAY_BITMAP_OFFSET + POOL_TICK_ARRAY_BITMAP_WORDS * 8
    ensures MarkedInPool(data, n) ==> InPoolBitmap(n)
  {}

  lemma PoolWordMark(data: seq<Byte>, wordIndex: nat, n: int)
    requires |data| >= POOL_TICK_ARRAY_BITMAP_OFFSET + POOL_TICK_ARRAY_BITMAP_WORDS * 8
    requires wordIndex < POOL_TICK_ARRAY_BITMAP_WORDS
    ensures var base := -TICK_ARRAY_BITMAP_SIZE + wordIndex * 64;
            MarkedInWord(WordAt(data, POOL_TICK_ARRAY_BITMAP_OFFSET + wordIndex * 8), base, 64, n)
            <==> MarkedInPool(data, n) && base <= n < base + 64
  {
    hide WordAt, BitSet;
    var base := -TICK_ARRAY_BITMAP_SIZE + wordIndex * 64;
    if base <= n < base + 64 {
      var k := n + TICK_ARRAY_BITMAP_SIZE;
      assert k / 64 == wordIndex && k % 64 == n - base;
    }
  }

  lemma AscendingConcat(a: seq<int>, b: seq<int>)
    requires Ascending(a) && Ascending(b) && forall x, y :: x in a && y in b ==> x < y
    ensures Ascending(a + b)
  {
    forall i, j | 0 <= i < j < |a + b| ensures (a + b)[i] < (a + b)[j] {
      if i < |a| <= j { assert (a + b)[i] in a && (a + b)[j] in b; }
    }
  }

  lemma {:induction false} ExtensionIndexesMeaning(data: seq<Byte>, spacing: nat, lo: int, hi: int)
    requires |data| >= BITMAP_EXTENSION_MIN_LEN && spacing > 0
    ensures Ascending(ExtensionIndexes(data, spacing, lo, hi))
    ensures forall n ::
              n in ExtensionIndexes(data, spacing, lo, hi) <==> lo <= n <= hi && MarkedInExtension(data, n, spacing)
    decreases hi - lo
  {
    hide MarkedInExtension;
    if hi >= lo {
      ExtensionIndexesMeaning(data, spacing, lo, hi - 1);
      if MarkedInExtension(data, hi, spacing) { AscendingConcat(ExtensionIndexes(data, spacing, lo, hi - 1), [hi]); }
    }
  }

  lemma {:induction false} NothingInZero(base: int, bits: nat)
    ensures WordIndexes(0, base, bits) == []
  {
    if bits > 0 { NothingInZero(base, bits - 1); }
  }

  method PushWordInitializedStartIndexes(starts: seq<int>, word: nat, wordIndex: nat, zeroOffset: int, tickCount: nat)
    returns (r: seq<int>)
    ensures r == WithNew(starts, Starts(WordIndexes(word, zeroOffset + wordIndex * 64, 64), tickCount))
  {
    hide BitSet, WithNew;
    var base := zeroOffset + wordIndex * 64;
    assert WithNew(starts, []) == starts by { NothingNew(starts); }
    if word == 0 {
      NothingInZero(base, 64);
      return starts;
    }
    r := starts;
    for bit := 0 to 64
      invariant r == WithNew(starts, Starts(WordIndexes(word, base, bit), tickCount))
    {
      ghost var marked := WordIndexes(word, base, bit);
      if BitSet(word, bit) {
        StartsSnoc(marked, base + bit, tickCount);
        OneMoreNew(starts, Starts(marked, tickCount), (base + bit) * tickCount);
        r := PushUniqueStartIndex(r, (base + bit) * tickCount);
      } else {
        assert marked + [] == marked;
      }
    }
  }

  lemma NothingNew(starts: seq<int>)
    ensures WithNew(starts, []) == starts
  {}

  lemma OneMoreNew(starts: seq<int>, more: seq<int>, x: int)
    ensures WithNew(starts, more + [x]) == WithNew(WithNew(starts, more), [x])
  {
    assert (more + [x])[..|more|] == more && [x][..0] == [];
  }

  lemma StartsSnoc(indexes: seq<int>, n: int, width: nat)
    ensures Starts(indexes + [n], width) == Starts(indexes, width) + [n * width]
  {}

  lemma PoolWordIsAbove(data: seq<Byte>, wordIndex: nat, width: nat)
    requires |data| >= POOL_TICK_ARRAY_BITMAP_OFFSET + POOL_TICK_ARRAY_BITMAP_WORDS * 8
    requires wordIndex < POOL_TICK_ARRAY_BITMAP_WORDS && width > 0
    ensures var word := WordAt(data, POOL_TICK_ARRAY_BITMAP_OFFSET + wordIndex * 8);
            WithNew(Starts(PoolIndexes(data, wordIndex), width),
                    Starts(WordIndexes(word, -TICK_ARRAY_BITMAP_SIZE + wordIndex * 64, 64), width))
            == Starts(PoolIndexes(data, wordIndex + 1), width)
  {
    hide WordAt, MarkedInPool, WordIndexes, WithNew, Starts, BitSet;
    var base := -TICK_ARRAY_BITMAP_SIZE + wordIndex * 64;
    var word := WordAt(data, POOL_TICK_ARRAY_BITMAP_OFFSET + wordIndex * 8);
    PoolIndexesMeaning(data, wordIndex);
    WordIndexesMeaning(word, base, 64);
    StartsAbove(PoolIndexes(data, wordIndex), WordIndexes(word, base, 64), width);
  }

  method StartsFromPoolState(data: seq<Byte>, spacing: nat) returns (r: Result<seq<int>, BitmapError>)
    requires spacing <= U16_MAX
    ensures r == if |data| < POOL_TICK_ARRAY_BITMAP_OFFSET + POOL_TICK_ARRAY_BITMAP_WORDS * 8 then Err(InvalidLength)
                 else if spacing == 0 then Err(InvalidTickSpacing)
                 else Ok(Starts(PoolIndexes(data, POOL_TICK_ARRAY_BITMAP_WORDS), Width(spacing)))
  {
    hide WordAt, PoolBitIsSet, WordIndexes, WithNew;
    if |data| < POOL_TICK_ARRAY_BITMAP_OFFSET + POOL_TICK_ARRAY_BITMAP_WORDS * 8 { return Err(InvalidLength); }
    if spacing == 0 { return Err(InvalidTickSpacing); }
    var tickCount := Width(spacing);
    var starts: seq<int> := [];
    for wordIndex := 0 to POOL_TICK_ARRAY_BITMAP_WORDS
      invariant starts == Starts(PoolIndexes(data, wordIndex), tickCount)
    {
      var word := WordAt(data, POOL_TICK_ARRAY_BITMAP_OFFSET + wordIndex * 8);
      PoolWordIsAbove(data, wordIndex, tickCount);
      starts := PushWordInitializedStartIndexes(starts, word, wordIndex, -TICK_ARRAY_BITMAP_SIZE, tickCount);
    }
    return Ok(starts);
  }

  method StartsFromBitmapExtension(data: seq<Byte>, spacing: nat) returns (r: Result<seq<int>, BitmapError>)
    requires spacing <= U16_MAX
    ensures r == if |data| < BITMAP_EXTENSION_MIN_LEN then Err(InvalidLength)
                 else if data[..8] != [60, 150, 36, 219, 97, 128, 139, 153] then Err(InvalidDiscriminator)
                 else if spacing == 0 then Err(InvalidTickSpacing)
                 else Ok(Starts(ExtensionIndexes(data, spacing, MIN_TICK / Width(spacing), MAX_TICK / Width(spacing)),
                     Width(spacing)))
  {
    hide MarkedInExtension, BitmapExtensionPosition, TickArrayStartIndex, WithNew;
    if |data| < BITMAP_EXTENSION_MIN_LEN { return Err(InvalidLength); }
    if data[..8] != BITMAP_EXTENSION_DISCRIMINATOR { return Err(InvalidDiscriminator); }
    if spacing == 0 { return Err(InvalidTickSpacing); }
    var tickCount := Width(spacing);
    var minStart := TickArrayStartIndex(MIN_TICK, spacing);
    var maxStart := TickArrayStartIndex(MAX_TICK, spacing);
    StartIsFloor(MIN_TICK, spacing);
    StartIsFloor(MAX_TICK, spacing);
    ScanFitsI32(spacing);
    ghost var lo, hi := MIN_TICK / tickCount, MAX_TICK / tickCount;
    ghost var n := lo;
    SignedOrder(lo, hi + 1, tickCount);
    assert (hi + 1) * tickCount == maxStart + tickCount;
    var starts: seq<int> := [];
    var start := minStart;
    while start <= maxStart
      invariant start == n * tickCount && lo <= n <= hi + 1
      invariant starts == Starts(ExtensionIndexes(data, spacing, lo, n - 1), tickCount)
      decreases hi - n
    {
      SignedOrder(n, hi, tickCount);
      ExtensionIndexesMeaning(data, spacing, lo, n - 1);
      var marked := ReadMark(data, n, start, spacing);
      if marked {
        StartsAbove(ExtensionIndexes(data, spacing, lo, n - 1), [n], tickCount);
        assert Starts([n], tickCount) == [start];
        starts := PushUniqueStartIndex(starts, start);
      }
      assert (n + 1) * tickCount == start + tickCount;
      if start + tickCount > I32_MAX { return Err(ScanOverflow); }
      start := start + tickCount;
      n := n + 1;
    }
    SignedOrder(n, hi + 1, tickCount);
    SignedOrder(hi, n, tickCount);
    return Ok(starts);
  }

  /** Looks up the position of a start and reads its bit, if it has one. */
  method ReadMark(data: seq<Byte>, ghost n: int, start: int, spacing: nat) returns (marked: bool)
    requires |data| >= BITMAP_EXTENSION_MIN_LEN && spacing > 0 && start == n * Width(spacing)
    ensures marked <==> MarkedInExtension(data, n, spacing)
  {
    hide BitmapExtensionPosition, BitmapExtensionBitIsSet;
    ArrayOwnsItsPosition(n, spacing);
    var position := BitmapExtensionPosition(start, spacing).value;
    marked := position.Some? && BitmapExtensionBitIsSet(data, position.value);
  }

  // ---------- what the scans find ----------

  lemma StartsMeaning(indexes: seq<int>, width: nat)
    requires width > 0 && Ascending(indexes)
    ensures Ascending(Starts(indexes, width))
    ensures forall n :: n * width in Starts(indexes, width) <==> n in indexes
    ensures forall x :: x in Starts(indexes, width) ==> x % width == 0
  {
    var starts := Starts(indexes, width);
    forall i, j | 0 <= i < j < |starts| ensures starts[i] < starts[j] {
      SignedOrder(indexes[i], indexes[j], width);
    }
    forall n ensures n * width in starts <==> n in indexes {
      StartListedExactly(indexes, width, n);
    }
    forall x | x in starts ensures x % width == 0 {
      var i :| 0 <= i < |starts| && starts[i] == x;
      MultipleOfWidth(indexes[i], width);
    }
  }

  lemma StartListedExactly(indexes: seq<int>, width: nat, n: int)
    requires width > 0
    ensures n * width in Starts(indexes, width) <==> n in indexes
  {
    var starts := Starts(indexes, width);
    if n * width in starts {
      var i :| 0 <= i < |starts| && starts[i] == n * width;
      SignedOrder(indexes[i], n, width);
      SignedOrder(n, indexes[i], width);
    }
    if n in indexes {
      var i :| 0 <= i < |indexes| && indexes[i] == n;
      assert starts[i] == n * width;
    }
  }

  lemma MultipleOfWidth(n: int, width: nat)
    requires width > 0
    ensures (n * width) % width == 0
  {
    var x := n * width;
    FloorUnique(x, width, n);
    assert x == x / width * width + x % width;
  }

  /** The pool scan finds, in order, exactly the tick arrays marked in the pool account. */
  lemma PoolScanExact(data: seq<Byte>, spacing: nat)
    requires |data| >= POOL_TICK_ARRAY_BITMAP_OFFSET + POOL_TICK_ARRAY_BITMAP_WORDS * 8 && spacing > 0
    ensures var starts := Starts(PoolIndexes(data, POOL_TICK_ARRAY_BITMAP_WORDS), Width(spacing));
            && Ascending(starts)
            && (forall x :: x in starts ==> x % Width(spacing) == 0)
            && forall n :: n * Width(spacing) in starts <==> MarkedInPool(data, n)
  {
    hide PoolBitIsSet;
    PoolIndexesMeaning(data, POOL_TICK_ARRAY_BITMAP_WORDS);
    StartsMeaning(PoolIndexes(data, POOL_TICK_ARRAY_BITMAP_WORDS), Width(spacing));
  }

  /**
    The extension scan finds, in order, exactly the tick arrays marked in the extension account whose
    range of ticks meets the permitted ticks.
   */
  lemma ExtensionScanExact(data: seq<Byte>, spacing: nat)
    requires |data| >= BITMAP_EXTENSION_MIN_LEN && spacing > 0
    ensures var w := Width(spacing);
            var starts := Starts(ExtensionIndexes(data, spacing, MIN_TICK / w, MAX_TICK / w), w);
            && Ascending(starts)
            && (forall x :: x in starts ==> x % w == 0)
            && forall n :: n * w in starts
                <==> MarkedInExtension(data, n, spacing) && -443636 < n * w + w && n * w <= 443636
  {
    hide MarkedInExtension;
    var w := Width(spacing);
    var lo, hi := MIN_TICK / w, MAX_TICK / w;
    ExtensionIndexesMeaning(data, spacing, lo, hi);
    StartsMeaning(ExtensionIndexes(data, spacing, lo, hi), w);
    FloorOf(MIN_TICK, w);
    FloorOf(MAX_TICK, w);
    forall n ensures lo <= n <= hi <==> MIN_TICK < n * w + w && n * w <= MAX_TICK {
      SignedOrder(lo, n, w);
      SignedOrder(n, hi, w);
      if n < lo { StepApart(n, lo, w); }
      if hi < n { StepApart(hi, n, w); }
    }
  }

  /** No tick array is found by both scans. */
  lemma ScansDisjoint(pool: seq<Byte>, extension: seq<Byte>, spacing: nat, n: int)
    requires |pool| >= POOL_TICK_ARRAY_BITMAP_OFFSET + POOL_TICK_ARRAY_BITMAP_WORDS * 8
    requires |extension| >= BITMAP_EXTENSION_MIN_LEN && spacing > 0
    ensures !(MarkedInPool(pool, n) && MarkedInExtension(extension, n, spacing))
    ensures InPoolBitmap(n) || InExtension(n) <==>
            -(BITMAP_EXTENSION_GROUPS + 1) * TICK_ARRAY_BITMAP_SIZE
                <= n < (BITMAP_EXTENSION_GROUPS + 1) * TICK_ARRAY_BITMAP_SIZE
  {
    ArrayOwnsItsPosition(n, spacing);
  }

  /** The test of a bit of the pool account reads exactly that bit of the 128 bytes from 832 on. */
  lemma PoolTestReadsItsBit(data: seq<Byte>, n: int)
    requires |data| >= 960
    ensures MarkedInPool(data, n) <==>
              -512 <= n < 512 && BitSet(data[832 + (n + 512) / 8], (n + 512) % 8)
  {
    hide BitSet;
    if -512 <= n < 512 {
      var k := n + 512;
      var offset := 832 + k / 64 * 8;
      WordBitIsByteBit(data[offset..offset + 8], k % 64);
      assert offset + k % 64 / 8 == 832 + k / 8;
    }
  }

  /** The mark of an array beyond the pool's bitmap is one bit of the extension's 1792 bytes from 40 on. */
  lemma ExtensionMarkIsItsBit(data: seq<Byte>, n: int, spacing: nat)
    requires |data| >= 1832 && spacing > 0
    ensures MarkedInExtension(data, n, spacing) <==>
              || (512 <= n < 7680 && BitSet(data[40 + (n - 512) / 8], (n - 512) % 8))
              || (-7680 <= n < -512
                  && var k := (-n - 1) / 512 * 512 - 512 + n % 512;
                     BitSet(data[936 + k / 8], k % 8))
  {
    hide BitSet, BitmapExtensionPosition, BitmapExtensionBitIsSet, PositionAt;
    ArrayOwnsItsPosition(n, spacing);
    var position := BitmapExtensionPosition(n * Width(spacing), spacing).value;
    if position.Some? {
      var p := position.value;
      TestReadsItsBit(data, p);
      NumberOfOwned(p);
      assert MarkedInExtension(data, n, spacing) <==> BitSet(data[40 + BitNumber(p) / 8], BitNumber(p) % 8);
      if !p.positive {
        BytesOn((-n - 1) / 512 * 512 - 512 + n % 512);
      }
    }
  }

  lemma BytesOn(k: nat)
    ensures (7168 + k) / 8 == 896 + k / 8 && (7168 + k) % 8 == k % 8
  {}

  /** The number of a bit from the index of the array that owns it. */
  lemma NumberOfOwned(p: BitPosition)
    requires ValidPosition(p)
    ensures var n := OwnerOf(p);
            && (p.positive ==> 512 <= n < 7680 && BitNumber(p) == n - 512)
            && (!p.positive ==>
                  && -7680 <= n < -512
                  && var k := (-n - 1) / 512 * 512 - 512 + n % 512;
                     0 <= k && BitNumber(p) == 7168 + k)
  {
    var n := OwnerOf(p);
    if !p.positive {
      QuotientIs(-n - 1, 512, p.group + 1, 511 - p.bit);
      FloorUnique(n, 512, -(p.group + 2));
      assert n == n / 512 * 512 + n % 512;
    }
  }

  /** Every tick array that meets the permitted ticks has a bit, in the pool account or in the extension. */
  lemma EveryTickArrayHasABit(tick: int, spacing: nat)
    requires -443636 <= tick <= 443636 && spacing > 0
    ensures var start := TickArrayStartIndex(tick, spacing);
            && start % (60 * spacing) == 0
            && start <= tick < start + 60 * spacing
            && (InPoolBitmap(start / (60 * spacing)) || InExtension(start / (60 * spacing)))
  {
    hide TickArrayStartIndex;
    var w := 60 * spacing;
    StartIsFloor(tick, spacing);
    var n := tick / w;
    MultipleOfWidth(n, w);
    FloorUnique(n * w, w, n);
    FloorOf(tick, w);
    IndexInReach(n, w);
  }

  lemma IndexInReach(n: int, w: nat)
    requires w >= 60 && n * w <= 443636 && -443636 < n * w + w
    ensures -7680 <= n < 7680
  {
    if n >= 7680 { FarAbove(n, w); }
    if n < -7680 { FarBelow(n, w); }
  }

  lemma FarAbove(n: nat, w: nat)
    requires w >= 60 && n >= 7680
    ensures n * w >= 460800
  {
    MulOrder(7680, n, w);
    MulOrder(60, w, 7680);
  }

  lemma FarBelow(n: int, w: nat)
    requires w >= 60 && n < -7680
    ensures n * w + w <= -460800
  {
    StepApart(n, -7680, w);
    MulOrder(60, w, 7680);
  }
}
