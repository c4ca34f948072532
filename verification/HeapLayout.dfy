/** Layout of a tenured heap chunk and the address arithmetic of its mark bitmap. */
module HeapLayout {
  import opened Words

  // ----- rounding -----

  function HowMany(x: nat, y: nat): nat
    requires y > 0
  {
    (x + y - 1) / y
  }

  function RoundUp(x: nat, y: nat): nat
    requires y > 0
  {
    HowMany(x, y) * y
  }

  function RoundDown(x: nat, y: nat): nat
    requires y > 0
  {
    (x / y) * y
  }

  lemma MultiplesStep(j: nat, k: nat, y: nat)
    requires j < k
    ensures j * y + y <= k * y
  {
    assert (j + 1) * y <= k * y;
  }

  /** RoundUp is the least multiple of y from x on. */
  lemma RoundUpIsLeast(x: nat, y: nat, k: nat)
    requires y > 0
    ensures x <= RoundUp(x, y) < x + y
    ensures k * y >= x ==> RoundUp(x, y) <= k * y
  {
    var u := HowMany(x, y);
    if k < u {
      MultiplesStep(k, u, y);
    } else if k > u {
      MultiplesStep(u, k, y);
    }
  }

  /** RoundDown is the greatest multiple of y up to x. */
  lemma RoundDownIsGreatest(x: nat, y: nat, k: nat)
    requires y > 0
    ensures RoundDown(x, y) <= x < RoundDown(x, y) + y
    ensures k * y <= x ==> k * y <= RoundDown(x, y)
  {
    var d := x / y;
    if k > d {
      MultiplesStep(d, k, y);
    } else if k < d {
      MultiplesStep(k, d, y);
    }
  }

  // ----- constants -----

  const CHAR_BIT: nat := 8
  const ARENA_SIZE: nat := 0x1000
  const CHUNK_SIZE: nat := 0x10_0000
  const CELL_ALIGN_BYTES: nat := 8
  const CELL_BYTES_PER_MARK_BIT: nat := CELL_ALIGN_BYTES
  const MARK_BITS_PER_CELL: nat := 2
  const MIN_CELL_SIZE: nat := CELL_BYTES_PER_MARK_BIT * MARK_BITS_PER_CELL
  const ARENA_BITMAP_BITS: nat := ARENA_SIZE / CELL_BYTES_PER_MARK_BIT
  const ARENA_BITMAP_BYTES: nat := HowMany(ARENA_BITMAP_BITS, 8)
  const CACHE_LINE: nat := 64

  /** What varies between builds: the width of a word and the number of arenas in a page. */
  datatype Platform = Platform(wordBits: nat, arenasPerPage: nat) {
    predicate Supported() {
      (wordBits == 32 || wordBits == 64) && (arenasPerPage == 1 || arenasPerPage == 4)
    }
  }

  type Target = p: Platform | p.Supported() witness Platform(64, 1)

  function PointerSize(p: Target): nat { p.wordBits / CHAR_BIT }

  /** Two pointers and two one-byte fields, padded to a pointer. */
  function ChunkBaseSize(p: Target): nat { RoundUp(2 * PointerSize(p) + 2, PointerSize(p)) }

  /** Two pointers and two 32-bit counts. */
  function ChunkInfoSize(p: Target): nat { 2 * PointerSize(p) + 8 }

  function ArenaBitmapWords(p: Target): nat { HowMany(ARENA_BITMAP_BITS, p.wordBits) }

  function PagesPerChunk(p: Target): nat {
    var bitsPerPage := (ARENA_SIZE + ARENA_BITMAP_BYTES) * p.arenasPerPage * CHAR_BIT + p.arenasPerPage + 1;
    ((CHUNK_SIZE - ChunkBaseSize(p) - ChunkInfoSize(p)) * CHAR_BIT) / bitsPerPage
  }

  function ArenasPerChunk(p: Target): (n: nat)
    ensures n == 252
  {
    CountPages(p);
    PagesPerChunk(p) * p.arenasPerPage
  }

  lemma HeaderSizes(p: Target)
    ensures ChunkBaseSize(p) == (if p.wordBits == 32 then 12 else 24)
    ensures ChunkInfoSize(p) == (if p.wordBits == 32 then 16 else 24)
    ensures ArenaBitmapWords(p) == (if p.wordBits == 32 then 16 else 8)
    ensures MarkBitmapOffset(p) == 64
  {
  }

  lemma CountPages(p: Target)
    ensures PagesPerChunk(p) == (if p.arenasPerPage == 1 then 252 else 63)
  {
    HeaderSizes(p);
    hide ChunkBaseSize, ChunkInfoSize;
  }

  function BitsPerArenaWithHeaders(p: Target): nat {
    (ARENA_SIZE + ARENA_BITMAP_BYTES) * CHAR_BIT + PagesPerChunk(p) / ArenasPerChunk(p) + 1
  }

  function WordCount(p: Target): nat { ArenaBitmapWords(p) * ArenasPerChunk(p) }

  function MarkBitmapOffset(p: Target): nat {
    RoundUp(ChunkBaseSize(p) + ChunkInfoSize(p), CACHE_LINE)
  }

  /** The header of a chunk: base, info, cache-line aligned mark bitmap, and one 32-bit-word bit
      set each for arenas and pages. */
  function TenuredChunkBaseSize(p: Target): nat {
    RoundUp(MarkBitmapOffset(p) + WordCount(p) * PointerSize(p)
            + HowMany(ArenasPerChunk(p), 32) * 4 + HowMany(PagesPerChunk(p), 32) * 4, CACHE_LINE)
  }

  function FirstArenaOffset(p: Target): nat { RoundUp(TenuredChunkBaseSize(p), ARENA_SIZE) }

  function FirstArenaAdjustmentBits(p: Target): nat { FirstArenaOffset(p) / CELL_BYTES_PER_MARK_BIT }

  function FirstArenaAdjustmentWords(p: Target): nat { FirstArenaAdjustmentBits(p) / p.wordBits }

  function ChunkSizeRequired(p: Target): nat {
    ChunkBaseSize(p) + ChunkInfoSize(p)
      + RoundUp(ArenasPerChunk(p) * ARENA_BITMAP_BYTES, PointerSize(p))
      + RoundUp(ArenasPerChunk(p), 32) / CHAR_BIT + RoundUp(PagesPerChunk(p), 32) / CHAR_BIT
      + ArenasPerChunk(p) * ARENA_SIZE
  }

  /** On every build, 252 arenas after a header of 16 KiB fill the chunk exactly, and the words
      skipped for the header are a whole number of bitmap words. */
  lemma ChunkIsFilled(p: Target)
    ensures FirstArenaOffset(p) == 0x4000
    ensures FirstArenaOffset(p) + ArenasPerChunk(p) * ARENA_SIZE == CHUNK_SIZE
    ensures ArenaBitmapWords(p) * p.wordBits == ARENA_BITMAP_BITS
    ensures FirstArenaAdjustmentBits(p) % p.wordBits == 0
    ensures FirstArenaAdjustmentWords(p) * p.wordBits == 2048
  {
    HeaderSizes(p);
    CountPages(p);
    hide PagesPerChunk, ArenasPerChunk, MarkBitmapOffset, ArenaBitmapWords;
    assert WordCount(p) * PointerSize(p) == 16128;
    assert TenuredChunkBaseSize(p) == 16256;
    hide TenuredChunkBaseSize;
    assert FirstArenaOffset(p) == 0x4000;
  }

  /** The other compile-time claims: the arenas and their bookkeeping fit, the space left over is
      too small for one more arena, and the bitmap covers exactly the arenas. */
  lemma ArenaCountIsBest(p: Target)
    ensures ChunkSizeRequired(p) <= CHUNK_SIZE
    ensures (CHUNK_SIZE - ChunkSizeRequired(p)) * CHAR_BIT < BitsPerArenaWithHeaders(p)
    ensures ARENA_BITMAP_BYTES * ArenasPerChunk(p) == WordCount(p) * PointerSize(p)
  {
    HeaderSizes(p);
    CountPages(p);
    hide PagesPerChunk, ArenasPerChunk, ChunkBaseSize, ChunkInfoSize, ArenaBitmapWords;
    assert RoundUp(16128, PointerSize(p)) == 16128;
    assert BitsPerArenaWithHeaders(p) >= 33281;
    assert 1048320 <= ChunkSizeRequired(p) <= CHUNK_SIZE;
  }

  // ----- cells -----

  /** A tenured cell: an aligned address and a size. */
  datatype Cell = Cell(addr: nat, size: nat) {
    function Chunk(): nat { addr / CHUNK_SIZE }

    function Offset(): nat { addr % CHUNK_SIZE }

    /** Index of the arena, counted from the first one after the chunk's header. */
    function Arena(p: Target): int { (Offset() - FirstArenaOffset(p)) / ARENA_SIZE }

    /** The cell starts at an aligned address in an arena and does not leave that arena. */
    predicate InArena(p: Target) {
      && addr % CELL_ALIGN_BYTES == 0 && size >= MIN_CELL_SIZE
      && Offset() >= FirstArenaOffset(p)
      && Offset() % ARENA_SIZE + size <= ARENA_SIZE
    }

    predicate Disjoint(other: Cell) {
      addr + size <= other.addr || other.addr + other.size <= addr
    }
  }

  datatype ColorBit = BlackBit | GrayOrBlackBit {
    function Index(): nat { if BlackBit? then 0 else 1 }
  }

  // ----- bit of a cell in its chunk's bitmap -----

  function MarkIndex(cell: Cell, color: ColorBit): nat {
    cell.Offset() / CELL_BYTES_PER_MARK_BIT + color.Index()
  }

  function MarkWord(p: Target, cell: Cell, color: ColorBit): int {
    MarkIndex(cell, color) / p.wordBits - FirstArenaAdjustmentWords(p)
  }

  function MarkBitOfWord(p: Target, cell: Cell, color: ColorBit): nat {
    MarkIndex(cell, color) % p.wordBits
  }

  function MarkMask(p: Target, cell: Cell, color: ColorBit): nat {
    Pow2(MarkBitOfWord(p, cell, color))
  }

  /** The bit index, split at the start of the cell's arena. */
  lemma MarkIndexInArena(p: Target, cell: Cell, color: ColorBit)
    requires cell.InArena(p)
    ensures 0 <= cell.Arena(p) < ArenasPerChunk(p)
    ensures 0 <= MarkIndex(cell, color) - 2048 - cell.Arena(p) * 512 < 512
  {
    ChunkIsFilled(p);
    hide FirstArenaOffset, ArenasPerChunk;
    var within := cell.Offset() % ARENA_SIZE;
    assert cell.Offset() == 0x4000 + cell.Arena(p) * 0x1000 + within;
    assert within / 8 + color.Index() < 512;
  }

  /** The word index never underflows, lies inside the bitmap, and belongs to the cell's arena. */
  lemma MarkWordInArena(p: Target, cell: Cell, color: ColorBit)
    requires cell.InArena(p)
    ensures 0 <= cell.Arena(p) < ArenasPerChunk(p)
    ensures 0 <= MarkWord(p, cell, color) < WordCount(p)
    ensures MarkWord(p, cell, color) / ArenaBitmapWords(p) == cell.Arena(p)
  {
    ChunkIsFilled(p);
    MarkIndexInArena(p, cell, color);
    HeaderSizes(p);
    hide FirstArenaAdjustmentWords, ArenaBitmapWords, ArenasPerChunk, MarkIndex, Cell.Arena;
    var a, bit := cell.Arena(p), MarkIndex(cell, color) - 2048 - cell.Arena(p) * 512;
    WordOfBit(a, bit);
  }

  lemma WordOfBit(a: nat, bit: nat)
    requires bit < 512
    ensures (2048 + a * 512 + bit) / 64 - 32 == a * 8 + bit / 64
    ensures (2048 + a * 512 + bit) / 32 - 64 == a * 16 + bit / 32
    ensures (a * 8 + bit / 64) / 8 == a && (a * 16 + bit / 32) / 16 == a
  {
  }

  /** The place of a colour bit, counted from the bitmap's first bit: the cell's distance from the first
      arena in units of eight bytes, and one more for the gray-or-black bit. */
  function MarkPosition(cell: Cell, color: ColorBit): int {
    (cell.Offset() - 0x4000) / 8 + if color == GrayOrBlackBit then 1 else 0
  }

  lemma OffsetInUnits(cell: Cell) returns (units: int)
    requires cell.addr % CELL_ALIGN_BYTES == 0
    ensures cell.Offset() == 8 * units
  {
    units := cell.addr / 8 - 0x2_0000 * (cell.addr / CHUNK_SIZE);
  }

  lemma Eighths(units: int)
    ensures (8 * units) / 8 == units && (8 * units - 0x4000) / 8 == units - 0x800
  {
  }

  lemma MarkPositions(p: Target, cell: Cell)
    requires cell.InArena(p)
    ensures MarkPosition(cell, BlackBit) * 8 + 0x4000 == cell.Offset()
    ensures MarkPosition(cell, GrayOrBlackBit) == MarkPosition(cell, BlackBit) + 1
    ensures forall color :: MarkPosition(cell, color) == MarkIndex(cell, color) - 0x800
  {
    var units := OffsetInUnits(cell);
    Eighths(units);
    hide Cell.Offset, Cell.InArena;
  }

  lemma MarkIsAtPosition(p: Target, cell: Cell, color: ColorBit)
    requires cell.InArena(p)
    ensures MarkWord(p, cell, color) * p.wordBits + MarkBitOfWord(p, cell, color) == MarkPosition(cell, color)
    ensures 0 <= MarkPosition(cell, color) && MarkWord(p, cell, color) == MarkPosition(cell, color) / p.wordBits
    ensures MarkBitOfWord(p, cell, color) == MarkPosition(cell, color) % p.wordBits
  {
    ChunkIsFilled(p);
    MarkWordInArena(p, cell, color);
    MarkPositions(p, cell);
    hide FirstArenaOffset, Cell.InArena, MarkPosition, MarkIndex;
    WordsSkipped(MarkIndex(cell, color), p.wordBits, FirstArenaAdjustmentWords(p));
  }

  /** The word and the bit of an index counted from some words further on. */
  lemma WordsSkipped(index: nat, w: nat, skipped: nat)
    requires w > 0 && index / w >= skipped
    ensures (index / w - skipped) * w + index % w == index - skipped * w
    ensures (index - skipped * w) / w == index / w - skipped && (index - skipped * w) % w == index % w
  {
    assert index == (index / w) * w + index % w;
    assert (index / w - skipped) * w == (index / w) * w - skipped * w;
    DivModUnique(index - skipped * w, w, index / w - skipped, index % w);
  }

  /** No two colour bits share a place: for two cells of a chunk that do not overlap, or one cell
      and its two colours, the word differs or the mask does. */
  lemma NoAlias(p: Target, x: Cell, cx: ColorBit, y: Cell, cy: ColorBit)
    requires x.InArena(p) && y.InArena(p) && x.Chunk() == y.Chunk()
    requires x == y || x.Disjoint(y)
    requires x != y || cx != cy
    ensures MarkWord(p, x, cx) != MarkWord(p, y, cy) || MarkMask(p, x, cx) != MarkMask(p, y, cy)
  {
    hide FirstArenaAdjustmentWords, FirstArenaOffset, Pow2;
    assert MarkIndex(x, cx) != MarkIndex(y, cy) by {
      if x != y {
        DisjointOffsets(x, y);
      }
    }
    hide MarkIndex;
    Pow2Injective(MarkBitOfWord(p, x, cx), MarkBitOfWord(p, y, cy));
    PlaceOfBit(MarkIndex(x, cx), MarkIndex(y, cy), p.wordBits);
  }

  /** A bit index is given by its word and its bit in the word. */
  lemma PlaceOfBit(a: nat, b: nat, w: nat)
    requires w > 0 && a != b
    ensures a / w != b / w || a % w != b % w
  {
    assert a == (a / w) * w + a % w && b == (b / w) * w + b % w;
  }

  lemma DisjointOffsets(x: Cell, y: Cell)
    requires x.addr % CELL_ALIGN_BYTES == 0 && y.addr % CELL_ALIGN_BYTES == 0
    requires x.size >= MIN_CELL_SIZE && y.size >= MIN_CELL_SIZE
    requires x.Chunk() == y.Chunk() && x.Disjoint(y)
    ensures x.Offset() / 8 + 2 <= y.Offset() / 8 || y.Offset() / 8 + 2 <= x.Offset() / 8
  {
    assert x.addr == x.Chunk() * CHUNK_SIZE + x.Offset();
    assert y.addr == y.Chunk() * CHUNK_SIZE + y.Offset();
  }

  /** getMarkWordAndMask: the word index and the one-bit mask, through two out-parameters. The
      low bits of the address and the shift are computed on machine words. */
  method GetMarkWordAndMask(p: Target, cell: Cell, color: ColorBit) returns (word: nat, mask: nat)
    requires cell.InArena(p)
    ensures word == MarkWord(p, cell, color) && mask == MarkMask(p, cell, color)
    ensures word < WordCount(p) && word / ArenaBitmapWords(p) == cell.Arena(p)
    ensures forall k: nat :: Bit(mask, k) <==> k == MarkBitOfWord(p, cell, color)
    ensures forall k: nat :: Bit(mask, k) <==> word * p.wordBits + k == MarkPosition(cell, color)
  {
    MarkIsAtPosition(p, cell, color);
    MarkWordInArena(p, cell, color);
    assert And(cell.addr, CHUNK_SIZE - 1) == cell.Offset() by {
      Pow2Values();
      AndMask(cell.addr, 20);
      ShrLowAreDivMod(cell.addr, 20);
    }
    var offset := And(cell.addr, CHUNK_SIZE - 1);
    var bit := offset / CELL_BYTES_PER_MARK_BIT + color.Index();
    word := bit / p.wordBits - FirstArenaAdjustmentWords(p);
    mask := Shl(1, bit % p.wordBits, p.wordBits);
    OneShifted(bit % p.wordBits, p.wordBits);
    forall k: nat ensures Bit(mask, k) <==> k == MarkBitOfWord(p, cell, color) {
      BitOfPow2(bit % p.wordBits, k);
    }
  }
}
