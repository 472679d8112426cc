/**
  Bin arrays of a bin-based pool: which array a bin belongs to, the three bitmaps that mark the
  arrays with liquidity, and the parser that numbers the bins of an array.
 */
module MeteoraBins {
  import opened Wrappers
  import opened Bytes

  const BIN_ARRAY_BINS: nat := 70
  const BIN_ARRAY_HEADER_LEN: nat := 56
  const BIN_LEN: nat := 144
  const BIN_ARRAY_MIN_LEN: nat := BIN_ARRAY_HEADER_LEN + BIN_ARRAY_BINS * BIN_LEN
  const BIN_ARRAY_BITMAP_SIZE := 512
  const EXTENSION_CHUNKS := 12
  const WORDS_PER_CHUNK := 8
  const BIN_ARRAY_INDEX_BOUND_MIN := -(BIN_ARRAY_BITMAP_SIZE * (EXTENSION_CHUNKS + 1))
  const BIN_ARRAY_INDEX_BOUND_MAX := BIN_ARRAY_BITMAP_SIZE * (EXTENSION_CHUNKS + 1) - 1

  /** Index of the bin array that holds a bin. */
  function BinArrayIndex(binId: int): int {
    var index := TruncDiv(binId, BIN_ARRAY_BINS);
    if binId < 0 && TruncMod(binId, BIN_ARRAY_BINS) != 0 then index - 1 else index
  }

  lemma IndexIsFloor(binId: int)
    ensures BinArrayIndex(binId) * BIN_ARRAY_BINS <= binId < (BinArrayIndex(binId) + 1) * BIN_ARRAY_BINS
  {}

  // ---------- bitmaps ----------

  /** The three bitmaps of a pool. */
  datatype Bitmaps = Bitmaps(base: seq<nat>, positive: seq<seq<nat>>, negative: seq<seq<nat>>)

  predicate WellFormed(b: Bitmaps) {
    && |b.base| == 16
    && |b.positive| == EXTENSION_CHUNKS && (forall c :: c in b.positive ==> |c| == WORDS_PER_CHUNK)
    && |b.negative| == EXTENSION_CHUNKS && (forall c :: c in b.negative ==> |c| == WORDS_PER_CHUNK)
  }

  predicate DefaultBitmapHasLiquidity(bitmap: seq<nat>, index: int)
    requires |bitmap| == 16
  {
    if !(-BIN_ARRAY_BITMAP_SIZE <= index < BIN_ARRAY_BITMAP_SIZE) then false
    else
      var actual := index + BIN_ARRAY_BITMAP_SIZE;
      BitSet(bitmap[actual / 64], actual % 64)
  }

  predicate OverflowsDefaultBitmap(index: int) {
    index > BIN_ARRAY_BITMAP_SIZE - 1 || index < -BIN_ARRAY_BITMAP_SIZE
  }

  predicate ExtensionHasLiquidity(b: Bitmaps, index: int)
    requires WellFormed(b)
  {
    if !OverflowsDefaultBitmap(index) then false
    else
      var idx := if index < 0 then -(index + 1) - BIN_ARRAY_BITMAP_SIZE else index - BIN_ARRAY_BITMAP_SIZE;
      if idx < 0 then false
      else
        var chunks := if index < 0 then b.negative else b.positive;
        var chunk, word := idx / BIN_ARRAY_BITMAP_SIZE, idx / 64 % WORDS_PER_CHUNK;
        if chunk < |chunks| then BitSet(chunks[chunk][word], idx % 64) else false
  }

  datatype Side = Default | Positive | Negative

  /** A bit of one of the three bitmaps, counted from the bitmap's first word. */
  datatype BitAddress = BitAddress(side: Side, bit: nat)

  predicate ValidAddress(a: BitAddress) {
    a.bit < if a.side.Default? then 1024 else 6144
  }

  function BitAt(b: Bitmaps, a: BitAddress): bool
    requires WellFormed(b) && ValidAddress(a)
  {
    match a.side
    case Default => BitSet(b.base[a.bit / 64], a.bit % 64)
    case Positive => BitSet(b.positive[a.bit / 512][a.bit / 64 % 8], a.bit % 64)
    case Negative => BitSet(b.negative[a.bit / 512][a.bit / 64 % 8], a.bit % 64)
  }

  /** The bit that stands for a bin array, if one does. */
  function AddressOf(index: int): Option<BitAddress> {
    if -512 <= index < 512 then Some(BitAddress(Default, index + 512))
    else if 512 <= index <= BIN_ARRAY_INDEX_BOUND_MAX then Some(BitAddress(Positive, index - 512))
    else if BIN_ARRAY_INDEX_BOUND_MIN <= index < -512 then Some(BitAddress(Negative, -513 - index))
    else None
  }

  function ArrayAt(a: BitAddress): int {
    match a.side
    case Default => a.bit - 512
    case Positive => a.bit + 512
    case Negative => -513 - a.bit
  }

  /** The bitmaps' bits and the permitted bin arrays correspond one to one. */
  lemma AddressesAreOneToOne(index: int, a: BitAddress)
    ensures AddressOf(index).Some? <==> -6656 <= index <= 6655
    ensures AddressOf(index).Some? ==> ValidAddress(AddressOf(index).value) && ArrayAt(AddressOf(index).value) == index
    ensures ValidAddress(a) ==> AddressOf(ArrayAt(a)) == Some(a)
  {}

  /**
    For every index whatever, the two lookups together read the one bit that stands for it, the
    default lookup in the default bitmap and the extension lookup in the others, and outside the
    bounds both say no.
   */
  lemma LookupsReadOneBit(b: Bitmaps, index: int)
    requires WellFormed(b)
    ensures AddressOf(index).Some? ==> ValidAddress(AddressOf(index).value)
    ensures DefaultBitmapHasLiquidity(b.base, index) <==>
              AddressOf(index).Some? && AddressOf(index).value.side.Default? && BitAt(b, AddressOf(index).value)
    ensures ExtensionHasLiquidity(b, index) <==>
              AddressOf(index).Some? && !AddressOf(index).value.side.Default? && BitAt(b, AddressOf(index).value)
  {
    hide BitSet;
  }

  // ---------- parsing ----------

  datatype ParseError = TooShort | InvalidDiscriminator | IndexOutOfRange

  function Unsigned(data: seq<Byte>, offset: nat, width: nat): nat
    requires offset + width <= |data|
  {
    FromLe(data[offset..offset + width])
  }

  // ---------- the extension account ----------

  const BITMAP_EXTENSION_DISCRIMINATOR: seq<Byte> := [80, 111, 124, 113, 55, 237, 18, 5]
  const LB_PAIR_OFFSET: nat := 8
  const POSITIVE_BITMAP_OFFSET: nat := LB_PAIR_OFFSET + 32
  const BITMAP_LEN: nat := EXTENSION_CHUNKS * WORDS_PER_CHUNK * 8
  const NEGATIVE_BITMAP_OFFSET: nat := POSITIVE_BITMAP_OFFSET + BITMAP_LEN
  const BITMAP_EXTENSION_MIN_LEN: nat := NEGATIVE_BITMAP_OFFSET + BITMAP_LEN

  datatype BitmapExtension = BitmapExtension(lbPair: seq<Byte>, positive: seq<seq<nat>>, negative: seq<seq<nat>>)

  function Words(data: seq<Byte>, offset: nat, count: nat): (r: seq<nat>)
    requires offset + 8 * count <= |data|
    ensures |r| == count
  {
    seq(count, i requires 0 <= i < count => Unsigned(data, offset + 8 * i, 8))
  }

  /** The words of one side of the extension, chunk by chunk. */
  function Chunks(data: seq<Byte>, offset: nat): (r: seq<seq<nat>>)
    requires offset + BITMAP_LEN <= |data|
    ensures |r| == EXTENSION_CHUNKS && forall c :: c in r ==> |c| == WORDS_PER_CHUNK
  {
    seq(EXTENSION_CHUNKS, i requires 0 <= i < EXTENSION_CHUNKS => Words(data, offset + 64 * i, WORDS_PER_CHUNK))
  }

  method ReadU64Array(data: seq<Byte>, offset: nat, count: nat) returns (r: Result<seq<nat>, ParseError>)
    ensures r == if |data| < offset + 8 * count then Err(TooShort) else Ok(Words(data, offset, count))
  {
    hide FromLe;
    if |data| < offset + 8 * count { return Err(TooShort); }
    var words := new nat[count];
    for i := 0 to count
      invariant forall j :: 0 <= j < i ==> words[j] == Unsigned(data, offset + 8 * j, 8)
    {
      words[i] := Unsigned(data, offset + 8 * i, 8);
    }
    assert words[..] == Words(data, offset, count);
    return Ok(words[..]);
  }

  method ReadU64Matrix(data: seq<Byte>, offset: nat) returns (r: Result<seq<seq<nat>>, ParseError>)
    ensures r == if |data| < offset + BITMAP_LEN then Err(TooShort) else Ok(Chunks(data, offset))
  {
    hide Words;
    var rows := new seq<nat>[EXTENSION_CHUNKS];
    for i := 0 to EXTENSION_CHUNKS
      invariant i > 0 ==> offset + 64 * i <= |data|
      invariant forall j :: 0 <= j < i ==> rows[j] == Words(data, offset + 64 * j, WORDS_PER_CHUNK)
    {
      var row := ReadU64Array(data, offset + 64 * i, WORDS_PER_CHUNK);
      if row.Err? { return Err(row.error); }
      rows[i] := row.value;
    }
    assert rows[..] == Chunks(data, offset);
    return Ok(rows[..]);
  }

  method ParseBitmapExtension(data: seq<Byte>) returns (r: Result<BitmapExtension, ParseError>)
    ensures r == if |data| < BITMAP_EXTENSION_MIN_LEN then Err(TooShort)
                 else if data[..8] != [80, 111, 124, 113, 55, 237, 18, 5] then Err(InvalidDiscriminator)
                 else Ok(BitmapExtension(data[LB_PAIR_OFFSET..POSITIVE_BITMAP_OFFSET],
                                         Chunks(data, POSITIVE_BITMAP_OFFSET), Chunks(data, NEGATIVE_BITMAP_OFFSET)))
  {
    if |data| < BITMAP_EXTENSION_MIN_LEN { return Err(TooShort); }
    if data[..8] != BITMAP_EXTENSION_DISCRIMINATOR { return Err(InvalidDiscriminator); }
    // The length check leaves room for both bitmaps, so neither read can fail.
    var positive := ReadU64Matrix(data, POSITIVE_BITMAP_OFFSET);
    var negative := ReadU64Matrix(data, NEGATIVE_BITMAP_OFFSET);
    return Ok(BitmapExtension(data[LB_PAIR_OFFSET..LB_PAIR_OFFSET + 32], positive.value, negative.value));
  }

  /** Where the account keeps a bit of the extension: its byte. */
  function ByteOf(a: BitAddress): nat {
    (if a.side.Positive? then POSITIVE_BITMAP_OFFSET else NEGATIVE_BITMAP_OFFSET) + a.bit / 8
  }

  /**
    Looking an index up in a parsed extension reads exactly one bit of the account, that of its
    address, and is false for every index that has no address in the extension.
   */
  lemma ParsedExtensionReadsItsBit(data: seq<Byte>, base: seq<nat>, index: int)
    requires |data| >= BITMAP_EXTENSION_MIN_LEN && |base| == 16
    ensures var b := Bitmaps(base, Chunks(data, POSITIVE_BITMAP_OFFSET), Chunks(data, NEGATIVE_BITMAP_OFFSET));
            && WellFormed(b)
            && (ExtensionHasLiquidity(b, index) <==>
                  && AddressOf(index).Some? && !AddressOf(index).value.side.Default?
                  && ByteOf(AddressOf(index).value) < |data|
                  && BitSet(data[ByteOf(AddressOf(index).value)], AddressOf(index).value.bit % 8))
  {
    hide BitSet, FromLe, ExtensionHasLiquidity, Chunks;
    var b := Bitmaps(base, Chunks(data, POSITIVE_BITMAP_OFFSET), Chunks(data, NEGATIVE_BITMAP_OFFSET));
    LookupsReadOneBit(b, index);
    if AddressOf(index).Some? && !AddressOf(index).value.side.Default? {
      var a := AddressOf(index).value;
      ChunkBit(data, if a.side.Positive? then POSITIVE_BITMAP_OFFSET else NEGATIVE_BITMAP_OFFSET, a.bit);
    }
  }

  lemma ChunkBit(data: seq<Byte>, offset: nat, bit: nat)
    requires offset + BITMAP_LEN <= |data| && bit < 6144
    ensures BitSet(Chunks(data, offset)[bit / 512][bit / 64 % 8], bit % 64) <==> BitSet(data[offset + bit / 8], bit % 8)
  {
    hide BitSet, FromLe, Chunks, Words;
    var chunk, word := bit / 512, bit / 64 % 8;
    var start := offset + 64 * chunk + 8 * word;
    WordOfChunk(data, offset, chunk, word);
    WordBitIsByteBit(data[start..start + 8], bit % 64);
    SameByte(bit);
    assert data[start..start + 8][bit % 64 / 8] == data[offset + bit / 8];
  }

  lemma SameByte(bit: nat)
    ensures 64 * (bit / 512) + 8 * (bit / 64 % 8) + bit % 64 / 8 == bit / 8 && bit % 64 % 8 == bit % 8
  {
    var c, r := bit / 512, bit % 512;
    var w, k := r / 64, r % 64;
    var q, m := k / 8, k % 8;
    QuotientIs(bit, 64, 8 * c + w, k);
    QuotientIs(bit, 8, 64 * c + 8 * w + q, m);
    QuotientIs(8 * c + w, 8, c, w);
  }

  lemma WordOfChunk(data: seq<Byte>, offset: nat, chunk: nat, word: nat)
    requires offset + BITMAP_LEN <= |data| && chunk < EXTENSION_CHUNKS && word < WORDS_PER_CHUNK
    ensures var start := offset + 64 * chunk + 8 * word;
            start + 8 <= |data| && Chunks(data, offset)[chunk][word] == FromLe(data[start..start + 8])
  {
    hide FromLe;
    assert Chunks(data, offset)[chunk] == Words(data, offset + 64 * chunk, WORDS_PER_CHUNK);
    assert Words(data, offset + 64 * chunk, WORDS_PER_CHUNK)[word] == Unsigned(data, offset + 64 * chunk + 8 * word, 8);
  }

  // ---------- parsing bin arrays ----------

  datatype Bin = Bin(binId: int, amountX: nat, amountY: nat, price: nat, liquiditySupply: nat)

  datatype BinArray = BinArray(lbPair: seq<Byte>, index: int, bins: seq<Bin>)

  /** A 64-bit two's complement number. */
  function SignedWord(n: nat): int {
    if n < 0x8000_0000_0000_0000 then n else n - 0x1_0000_0000_0000_0000
  }

  /** 32-bit addition as it wraps around. */
  function WrapI32(x: int): (r: int)
    ensures FitsI32(r)
    ensures FitsI32(x) ==> r == x
  {
    (x + 0x8000_0000) % 0x1_0000_0000 - 0x8000_0000
  }

  function BinAt(data: seq<Byte>, startBinId: int, local: nat): Bin
    requires |data| >= BIN_ARRAY_MIN_LEN && local < BIN_ARRAY_BINS
  {
    var offset := BIN_ARRAY_HEADER_LEN + local * BIN_LEN;
    Bin(WrapI32(startBinId + local),
        Unsigned(data, offset, 8), Unsigned(data, offset + 8, 8),
        Unsigned(data, offset + 16, 16), Unsigned(data, offset + 32, 16))
  }

  predicate HoldsAnything(bin: Bin) {
    bin.amountX > 0 || bin.amountY > 0 || bin.liquiditySupply > 0
  }

  function BinsBefore(data: seq<Byte>, startBinId: int, local: nat): seq<Bin>
    requires |data| >= BIN_ARRAY_MIN_LEN && local <= BIN_ARRAY_BINS
  {
    if local == 0 then []
    else
      var bin := BinAt(data, startBinId, local - 1);
      BinsBefore(data, startBinId, local - 1) + if HoldsAnything(bin) then [bin] else []
  }

  method ParseBinArray(data: seq<Byte>) returns (r: Result<BinArray, ParseError>)
    ensures |data| < BIN_ARRAY_MIN_LEN ==> r == Err(TooShort)
    ensures |data| >= BIN_ARRAY_MIN_LEN ==>
              var index := SignedWord(Unsigned(data, 8, 8));
              r == if FitsI32(index * BIN_ARRAY_BINS)
                   then Ok(BinArray(data[24..56], index, BinsBefore(data, index * BIN_ARRAY_BINS, BIN_ARRAY_BINS)))
                   else Err(IndexOutOfRange)
  {
    hide FromLe, SignedWord, HoldsAnything;
    if |data| < BIN_ARRAY_MIN_LEN { return Err(TooShort); }
    var index := SignedWord(Unsigned(data, 8, 8));
    var lbPair := data[24..56];
    var startBinId := index * BIN_ARRAY_BINS;
    if !FitsI32(startBinId) { return Err(IndexOutOfRange); }
    var bins: seq<Bin> := [];
    for local := 0 to BIN_ARRAY_BINS
      invariant bins == BinsBefore(data, startBinId, local)
    {
      var bin := BinAt(data, startBinId, local);
      if HoldsAnything(bin) { bins := bins + [bin]; }
    }
    return Ok(BinArray(lbPair, index, bins));
  }

  lemma {:induction false} BinsComeFromSlots(data: seq<Byte>, start: int, count: nat, bin: Bin)
    requires |data| >= BIN_ARRAY_MIN_LEN && count <= BIN_ARRAY_BINS
    ensures bin in BinsBefore(data, start, count) <==>
            exists k: nat :: k < count && bin == BinAt(data, start, k) && HoldsAnything(bin)
  {
    hide BinAt, HoldsAnything;
    if count > 0 {
      BinsComeFromSlots(data, start, count - 1, bin);
      if bin == BinAt(data, start, count - 1) && HoldsAnything(bin) {
        assert bin in BinsBefore(data, start, count);
      }
    }
  }

  /**
    Every bin of a parsed array maps back to the array's index, unless numbering the bins wraps
    around: a slot maps back exactly when its number fits 32 bits.
   */
  lemma SlotMapsBackExactly(data: seq<Byte>, index: int, local: nat)
    requires |data| >= BIN_ARRAY_MIN_LEN && FitsI32(index * BIN_ARRAY_BINS) && local < BIN_ARRAY_BINS
    ensures BinArrayIndex(BinAt(data, index * BIN_ARRAY_BINS, local).binId) == index <==>
            index * BIN_ARRAY_BINS + local <= I32_MAX
  {
    hide FromLe;
    var id := index * BIN_ARRAY_BINS + local;
    IndexIsFloor(WrapI32(id));
    if id > I32_MAX { assert WrapI32(id) == id - 0x1_0000_0000; }
  }

  /** In the highest array that is accepted, the bin in slot 58 gets the lowest number there is. */
  lemma HighestSlotsWrap(data: seq<Byte>)
    requires |data| >= BIN_ARRAY_MIN_LEN
    ensures FitsI32(30_678_337 * BIN_ARRAY_BINS)
    ensures BinAt(data, 30_678_337 * BIN_ARRAY_BINS, 58).binId == I32_MIN
    ensures BinArrayIndex(BinAt(data, 30_678_337 * BIN_ARRAY_BINS, 58).binId) != 30_678_337
  {
    SlotMapsBackExactly(data, 30_678_337, 58);
  }

  /** Bins of an array within the permitted bounds all map back to it. */
  lemma PermittedBinsMapBack(data: seq<Byte>, index: int, bin: Bin)
    requires |data| >= BIN_ARRAY_MIN_LEN
    requires BIN_ARRAY_INDEX_BOUND_MIN <= index <= BIN_ARRAY_INDEX_BOUND_MAX
    requires bin in BinsBefore(data, index * BIN_ARRAY_BINS, BIN_ARRAY_BINS)
    ensures BinArrayIndex(bin.binId) == index
  {
    BinsComeFromSlots(data, index * BIN_ARRAY_BINS, BIN_ARRAY_BINS, bin);
    var k: nat :| k < BIN_ARRAY_BINS && bin == BinAt(data, index * BIN_ARRAY_BINS, k) && HoldsAnything(bin);
    SlotMapsBackExactly(data, index, k);
  }

  /** A bin as its slot holds it: two 64-bit and two 128-bit numbers, little-endian. */
  function SlotOf(bin: Bin): seq<Byte> {
    ToLe(bin.amountX, 8) + ToLe(bin.amountY, 8) + ToLe(bin.price, 16) + ToLe(bin.liquiditySupply, 16)
  }

  lemma SliceOfSlice(data: seq<Byte>, at: nat, len: nat, i: nat, j: nat)
    requires at + len <= |data| && i <= j <= len
    ensures data[at..at + len][i..j] == data[at + i..at + j]
  {
    var s, t := data[at..at + len], data[at + i..at + j];
    forall k | 0 <= k < j - i ensures s[i..j][k] == t[k] {
      assert s[i + k] == data[at + (i + k)];
    }
  }

  /** Four pieces written one after the other at `at` are found there again. */
  lemma FourParts(a: seq<Byte>, b: seq<Byte>, c: seq<Byte>, d: seq<Byte>, data: seq<Byte>, at: nat)
    requires |a| == 8 && |b| == 8 && |c| == 16 && |d| == 16 && at + 48 <= |data|
    requires data[at..at + 48] == a + b + c + d
    ensures data[at..at + 8] == a && data[at + 8..at + 16] == b
    ensures data[at + 16..at + 32] == c && data[at + 32..at + 48] == d
  {
    var all := a + b + c + d;
    assert all[..8] == a && all[8..16] == b && all[16..32] == c && all[32..48] == d;
    SliceOfSlice(data, at, 48, 0, 8);
    SliceOfSlice(data, at, 48, 8, 16);
    SliceOfSlice(data, at, 48, 16, 32);
    SliceOfSlice(data, at, 48, 32, 48);
  }

  /** A slot reads back what it was written from: slot `local` is at 56 + 144 * local. */
  lemma SlotReadsBack(data: seq<Byte>, index: int, local: nat, bin: Bin)
    requires |data| >= 10136 && local < 70
    requires bin.amountX < Pow256(8) && bin.amountY < Pow256(8) && bin.price < Pow256(16)
        && bin.liquiditySupply < Pow256(16)
    requires data[56 + 144 * local..56 + 144 * local + 48] == SlotOf(bin)
    ensures var read := BinAt(data, index * 70, local);
            && read == bin.(binId := read.binId)
            && (FitsI32(index * 70 + local) ==> read.binId == index * 70 + local)
            && (HoldsAnything(read) <==> bin.amountX > 0 || bin.amountY > 0 || bin.liquiditySupply > 0)
  {
    hide ToLe, FromLe;
    var at := 56 + 144 * local;
    FourParts(ToLe(bin.amountX, 8), ToLe(bin.amountY, 8), ToLe(bin.price, 16), ToLe(bin.liquiditySupply, 16), data, at);
    DecodeEncode(bin.amountX, 8);
    DecodeEncode(bin.amountY, 8);
    DecodeEncode(bin.price, 16);
    DecodeEncode(bin.liquiditySupply, 16);
  }

  /** The index is the signed number in bytes 8 to 15: of the two that these can spell, the one in range. */
  lemma IndexIsRead(data: seq<Byte>, index: int)
    requires |data| >= 16 && -0x8000_0000_0000_0000 <= index < 0x8000_0000_0000_0000
    requires data[8..16] == ToLe(if index < 0 then index + 0x1_0000_0000_0000_0000 else index, 8)
    ensures SignedWord(Unsigned(data, 8, 8)) == index
  {
    hide ToLe, FromLe;
    Powers();
    DecodeEncode(if index < 0 then index + 0x1_0000_0000_0000_0000 else index, 8);
  }
}
