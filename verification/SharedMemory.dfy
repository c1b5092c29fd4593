/** The layout of the shared memory (shmem/include/shmem/shared_memory_map.h): a header, the process slots, the data
    slots, each area rounded up to 256 bytes. Sizes are 64-bit and wrap. */
module SharedMemory {
  import opened Basics
  import opened Children
  import Pipeline

  /** memory_map_t; the counts are C ints, and its own size is 32 bytes. */
  datatype Map = Map(processCnt: int, processSize: Word, dataCnt: int, dataSize: Word)

  const MAP_BYTES: Word := 32

  /** MEMORY_ALIGN: add 255, then shift right and left by 8. */
  function Align(size: Word): Word { Wrap(Wrap(size + 255) / 256 * 256) }

  function MapSize(): Word { Align(MAP_BYTES) }

  function ProcessArea(m: Map): Word { Align(Wrap(m.processSize * Wrap(m.processCnt))) }

  function DataArea(m: Map): Word { Align(Wrap(m.dataSize * Wrap(m.dataCnt))) }

  function GetSize(m: Map): Word { Wrap(Wrap(MapSize() + ProcessArea(m)) + DataArea(m)) }

  function ProcessOffset(): Word { MapSize() }

  function DataOffset(m: Map): Word { Wrap(MapSize() + ProcessArea(m)) }

  /** The offset of data buffer number `i` that the server puts into the ring; inside the memory it does not wrap. */
  function DataSlot(m: Map, i: nat): int { DataOffset(m) + i * m.dataSize }

  function ProcessSlot(m: Map, i: nat): int { ProcessOffset() + i * m.processSize }

  // ----- what the arithmetic means -----

  /** The least multiple of 256 that is not below `n`. */
  ghost predicate RoundedUp(n: int, r: int) {
    r % 256 == 0 && n <= r < n + 256
  }

  function RoundUp(n: int): (r: int)
    ensures RoundedUp(n, r)
  {
    (n + 255) / 256 * 256
  }

  lemma RoundUpIsLeast(n: int, r: int)
    requires r % 256 == 0 && n <= r
    ensures RoundUp(n) <= r
  { }

  lemma RoundUpShift(q: int, n: int)
    ensures RoundUp(q * WORD + n) == q * WORD + RoundUp(n)
  { }

  lemma RoundUpNonneg(n: int)
    requires n >= 0
    ensures RoundUp(n) >= 0
  { }

  lemma AlignIsWrapped(w: Word)
    ensures Align(w) == Wrap(RoundUp(w))
  {
    if w + 255 < WORD {
      WrapSmall(w + 255);
    } else {
      WrapShift(w + 255 - WORD, 1);
      WrapSmall(w + 255 - WORD);
      RoundUpIsLeast(w, WORD);
    }
  }

  /** Aligning commutes with wrapping, because the word is a multiple of 256. */
  lemma AlignOfWrap(n: int)
    ensures Align(Wrap(n)) == Wrap(RoundUp(n))
  {
    var q, w := n / WORD, Wrap(n);
    assert n == q * WORD + w;
    hide Align, RoundUp, RoundedUp, Wrap;
    AlignIsWrapped(w);
    RoundUpShift(q, w);
    WrapShift(RoundUp(w), q);
  }

  lemma WrapProduct(size: Word, cnt: int)
    ensures Wrap(size * Wrap(cnt)) == Wrap(size * cnt)
  {
    var q := cnt / WORD;
    assert cnt == q * WORD + Wrap(cnt);
    assert size * cnt == (size * q) * WORD + size * Wrap(cnt);
    WrapShift(size * Wrap(cnt), size * q);
  }

  /** The number of bytes the three areas need. */
  function Needed(m: Map): int {
    256 + RoundUp(m.processSize * m.processCnt) + RoundUp(m.dataSize * m.dataCnt)
  }

  lemma WrapSum(a: int, b: int)
    ensures Wrap(a + Wrap(b)) == Wrap(a + b) && Wrap(Wrap(a) + b) == Wrap(a + b)
  {
    WrapShift(a + Wrap(b), b / WORD);
    WrapShift(Wrap(a) + b, a / WORD);
  }

  lemma AreaIsNeeded(size: Word, cnt: int)
    ensures Align(Wrap(size * Wrap(cnt))) == Wrap(RoundUp(size * cnt))
  {
    hide Align, RoundUp, Wrap;
    WrapProduct(size, cnt);
    AlignOfWrap(size * cnt);
  }

  /** For all counts and sizes the code computes the needed size modulo the word. */
  lemma SizeIsNeeded(m: Map)
    ensures DataOffset(m) == Wrap(256 + RoundUp(m.processSize * m.processCnt))
    ensures DataArea(m) == Wrap(RoundUp(m.dataSize * m.dataCnt))
    ensures GetSize(m) == Wrap(DataOffset(m) + DataArea(m)) == Wrap(Needed(m))
  {
    hide Align, RoundUp, Wrap, MapSize;
    AlignedHeader();
    AreaIsNeeded(m.processSize, m.processCnt);
    AreaIsNeeded(m.dataSize, m.dataCnt);
    var p, d := RoundUp(m.processSize * m.processCnt), RoundUp(m.dataSize * m.dataCnt);
    WrapSum(256, p);
    WrapSum(256 + p, d);
    WrapSum(256 + p, Wrap(d));
  }

  lemma AlignedHeader()
    ensures MapSize() == 256
  { }

  // ----- the layout -----

  /** Every slot lies in its own area and every area in the shared memory. */
  ghost predicate Inside(m: Map) {
    && (forall i: nat :: i < m.processCnt ==>
          MapSize() <= ProcessSlot(m, i) && ProcessSlot(m, i) + m.processSize <= DataOffset(m))
    && (forall i: nat :: i < m.dataCnt ==>
          DataOffset(m) <= DataSlot(m, i) && DataSlot(m, i) + m.dataSize <= GetSize(m))
    && MapSize() <= DataOffset(m) <= GetSize(m)
    && DataOffset(m) + DataArea(m) == GetSize(m)
  }

  lemma SlotEnds(size: int, cnt: int, i: nat)
    requires size >= 0 && i < cnt
    ensures 0 <= i * size && i * size + size <= cnt * size
  {
    var rest := cnt - i - 1;
    Product(rest, size);
    Product(i, size);
    assert cnt * size == (rest + i + 1) * size == rest * size + i * size + size;
  }

  lemma Exact(m: Map)
    requires m.processCnt >= 0 && m.dataCnt >= 0 && Needed(m) < WORD
    ensures DataOffset(m) == 256 + RoundUp(m.processSize * m.processCnt)
    ensures DataArea(m) == RoundUp(m.dataSize * m.dataCnt)
    ensures GetSize(m) == Needed(m)
  {
    hide RoundUp, RoundedUp, DataOffset, DataArea, GetSize, Wrap;
    SizeIsNeeded(m);
    Product(m.processSize, m.processCnt);
    Product(m.dataSize, m.dataCnt);
    var p, d := RoundUp(m.processSize * m.processCnt), RoundUp(m.dataSize * m.dataCnt);
    RoundUpNonneg(m.processSize * m.processCnt);
    RoundUpNonneg(m.dataSize * m.dataCnt);
    WrapSmall(256 + p);
    WrapSmall(d);
    WrapSmall(256 + p + d);
  }

  /** An area whose bytes end before its wrapped end has not wrapped. */
  lemma NotWrapped(start: int, bytes: int, end: Word)
    requires 0 <= start && start % 256 == 0 && 0 <= bytes
    requires end == Wrap(start + RoundUp(bytes)) && start + bytes <= end
    ensures end == start + RoundUp(bytes)
  {
    var q := (start + RoundUp(bytes)) / WORD;
    assert start + RoundUp(bytes) == q * WORD + end;
    assert end % 256 == 0;
  }

  lemma NeededFits(m: Map)
    requires m.processCnt >= 0 && m.dataCnt >= 0 && Inside(m)
    ensures Needed(m) < WORD
  {
    hide DataArea, DataOffset, GetSize, RoundUp, MapSize, Wrap;
    AlignedHeader();
    SizeIsNeeded(m);
    var p, d := m.processSize * m.processCnt, m.dataSize * m.dataCnt;
    Product(m.processSize, m.processCnt);
    Product(m.dataSize, m.dataCnt);
    if m.processCnt > 0 {
      assert ProcessSlot(m, m.processCnt - 1) + m.processSize == 256 + p by { LastEnd(m.processSize, m.processCnt); }
    }
    NotWrapped(256, p, DataOffset(m));
    if m.dataCnt > 0 {
      assert DataSlot(m, m.dataCnt - 1) + m.dataSize == DataOffset(m) + d by { LastEnd(m.dataSize, m.dataCnt); }
    }
    NotWrapped(256 + RoundUp(p), d, GetSize(m));
  }

  lemma LastEnd(size: int, cnt: int)
    ensures (cnt - 1) * size + size == size * cnt
  { }

  /** The layout is right if and only if the needed bytes fit a size_t. */
  lemma InsideIff(m: Map)
    requires m.processCnt >= 0 && m.dataCnt >= 0
    ensures Inside(m) <==> Needed(m) < WORD
    ensures Inside(m) ==> GetSize(m) == Needed(m)
  {
    hide Needed, DataArea, DataOffset, GetSize, RoundUp, MapSize;
    if Inside(m) {
      NeededFits(m);
    }
    if Needed(m) < WORD {
      Exact(m);
      FitsIsInside(m);
    }
  }

  lemma FitsIsInside(m: Map)
    requires m.processCnt >= 0 && m.dataCnt >= 0 && Needed(m) < WORD
    ensures Inside(m)
  {
    hide DataArea, DataOffset, GetSize, RoundUp, MapSize;
    AlignedHeader();
    Exact(m);
    Product(m.processSize, m.processCnt);
    Product(m.dataSize, m.dataCnt);
    forall i: nat | i < m.processCnt
      ensures MapSize() <= ProcessSlot(m, i) && ProcessSlot(m, i) + m.processSize <= DataOffset(m)
    {
      SlotEnds(m.processSize, m.processCnt, i);
    }
    forall i: nat | i < m.dataCnt
      ensures DataOffset(m) <= DataSlot(m, i) && DataSlot(m, i) + m.dataSize <= GetSize(m)
    {
      SlotEnds(m.dataSize, m.dataCnt, i);
    }
  }

  /** Two slots never share a byte: process slots, data slots, and one of each. */
  lemma SlotsDisjoint(m: Map, i: nat, j: nat)
    requires m.processCnt >= 0 && m.dataCnt >= 0 && Needed(m) < WORD
    ensures i < j < m.processCnt ==> ProcessSlot(m, i) + m.processSize <= ProcessSlot(m, j)
    ensures i < j < m.dataCnt ==> DataSlot(m, i) + m.dataSize <= DataSlot(m, j)
    ensures i < m.processCnt ==> MAP_BYTES <= ProcessSlot(m, i)
    ensures i < m.processCnt && j < m.dataCnt ==> ProcessSlot(m, i) + m.processSize <= DataSlot(m, j)
  {
    hide DataOffset, GetSize;
    InsideIff(m);
    AlignedHeader();
    if i < j {
      SlotEnds(m.processSize, j, i);
      SlotEnds(m.dataSize, j, i);
    }
  }

  // ----- what the pipeline starts from -----

  /** The offsets put into the ring by pipeline_thread. */
  function Offsets(m: Map): (s: seq<int>)
    requires m.dataCnt >= 0
    ensures |s| == m.dataCnt && forall i :: 0 <= i < m.dataCnt ==> s[i] == DataSlot(m, i)
  {
    seq(m.dataCnt, i requires 0 <= i => DataSlot(m, i))
  }

  /** With at least one buffer, nonempty buffers and a process slot for every child, the pipeline starts from a valid
      configuration. */
  lemma LayoutFeedsPipeline(m: Map, cfg: Pipeline.Config)
    requires m.dataCnt >= 1 && m.dataSize > 0 && m.processCnt >= 0 && Inside(m)
    requires cfg.n >= 2 && cfg.processMax == m.processCnt && cfg.offsets == Offsets(m)
    ensures Pipeline.ValidConfig(cfg) <==> m.processCnt >= cfg.n - 1
  {
    hide DataOffset, Inside;
    forall j, k | 0 <= j < k < |cfg.offsets| ensures cfg.offsets[j] != cfg.offsets[k] {
      SlotEnds(m.dataSize, k, j);
    }
  }

  /** A count whose bytes wrap to nothing: the size is that of an empty data area, and the first buffer is outside. */
  lemma WrappedSizeIsTooSmall()
    ensures var m := Map(3, 2200, 0x4000_0000, 0x4_0000_0000);
            GetSize(m) == DataOffset(m) && !Inside(m)
  {
    hide Inside, DataArea, DataOffset, GetSize;
    var m := Map(3, 2200, 0x4000_0000, 0x4_0000_0000);
    assert m.dataSize * m.dataCnt == WORD && m.processSize * m.processCnt == 6600;
    assert RoundUp(6600) == 6656 && RoundUp(WORD) == WORD;
    SizeIsNeeded(m);
    InsideIff(m);
  }
}
