/**
 * Boundary-tag codec of the implicit-free-list allocator: the constants of
 * Figure 9.43 and the PACK / GET_SIZE / GET_ALLOC word operations.
 *
 * A tag is a 32-bit unsigned word. Its bit operations are stated exactly by
 * arithmetic on the word's value:
 *   w & ~0x7        ==  w - w % 8
 *   w & 0x1         ==  w % 2
 *   alloc & 0x1     ==  alloc % 2   (two's complement low bit of a C int; Dafny's % is Euclidean)
 *   size | b        ==  if size is odd then size else size + b   (for b in {0, 1})
 */
module Tags {

  const WSIZE: int := 4        // word size (bytes)
  const DSIZE: int := 8        // double-word size (bytes)
  const CHUNKSIZE: int := 4096 // initial heap extension (bytes), 1 << 12
  const OVERHEAD: int := 8     // header plus footer (bytes)

  const WORD_LIMIT: int := 0x1_0000_0000

  /** A 32-bit unsigned word (uint32_t). */
  type Word = x: int | 0 <= x < 0x1_0000_0000

  /** MAX(x, y) of the source. */
  function Max(x: int, y: int): (m: int)
    ensures m >= x && m >= y
    ensures m == x || m == y
  {
    if x > y then x else y
  }

  /** The smaller of x and y. */
  function Min(x: int, y: int): (m: int)
    ensures m <= x && m <= y
    ensures m == x || m == y
  {
    if x < y then x else y
  }

  /** `alloc & 0x1` for a C int: the low bit of its two's complement encoding. */
  function LowBit(alloc: int): (b: int)
    ensures b == 0 || b == 1
    ensures (alloc - b) % 2 == 0
  {
    alloc % 2
  }

  /** GET_SIZE applied to a word already read: clears the three low bits. */
  function SizeOf(w: Word): (s: Word)
    ensures s % 8 == 0
    ensures s <= w < s + 8
  {
    w - w % 8
  }

  /** GET_ALLOC applied to a word already read: the allocated bit. */
  function AllocOf(w: Word): (a: int)
    ensures a == 0 || a == 1
    ensures (w - a) % 2 == 0
  {
    LowBit(w)
  }

  /**
   * PACK(size, alloc) = size | (alloc & 1). For an 8-aligned size (every size
   * the allocator writes) the size and the masked flag are recovered exactly.
   */
  function Pack(size: Word, alloc: int): (w: Word)
    ensures size % 8 == 0 ==> SizeOf(w) == size && AllocOf(w) == LowBit(alloc)
    ensures size % 2 == 1 ==> w == size
  {
    if size % 2 == 1 then size else size + LowBit(alloc)
  }

  /** The sum of two double-word multiples is one, and the words before it are word-aligned. */
  lemma AlignedSum(a: int, b: int)
    requires a % DSIZE == 0 && b % DSIZE == 0
    ensures (a + b) % DSIZE == 0 && (a + b - DSIZE) % WSIZE == 0 && (a + b - WSIZE) % WSIZE == 0
  {
    var k := a / DSIZE + b / DSIZE;
    assert a + b == DSIZE * k;
    MultipleOfEight(k);
  }

  /** A multiple of eight, and four or eight less than it, are word-aligned; the multiple is double-word aligned. */
  lemma MultipleOfEight(k: int)
    ensures (DSIZE * k) % DSIZE == 0 && (DSIZE * k - DSIZE) % WSIZE == 0 && (DSIZE * k - WSIZE) % WSIZE == 0
  {
    assert DSIZE * k - DSIZE == WSIZE * (2 * k - 2);
    assert DSIZE * k - WSIZE == WSIZE * (2 * k - 1);
  }

  /** A whole number of words past a word-aligned offset is word-aligned. */
  lemma WordOffset(a: int, m: int)
    requires a % WSIZE == 0
    ensures (a + WSIZE * m) % WSIZE == 0
  {
    assert a + WSIZE * m == WSIZE * (a / WSIZE + m);
  }

  /** A double-word multiple is a word multiple. */
  lemma DoubleWordAligned(a: int)
    requires a % DSIZE == 0
    ensures a % WSIZE == 0
  {
    assert a == WSIZE * (2 * (a / DSIZE));
  }

  /** Word-aligned offsets: their sum is word-aligned, and the smaller is at least a word below the larger. */
  lemma WordsApart(a: int, b: int)
    requires a % WSIZE == 0 && b % WSIZE == 0
    ensures (a + b) % WSIZE == 0
    ensures a < b ==> a + WSIZE <= b
  {
    var k, l := a / WSIZE, b / WSIZE;
    assert a == WSIZE * k && b == WSIZE * l;
    assert a + b == WSIZE * (k + l);
  }

  /** Two 8-aligned tags are equal exactly when their sizes and masked flags are. */
  lemma PackInjective(s1: Word, a1: int, s2: Word, a2: int)
    requires s1 % 8 == 0 && s2 % 8 == 0
    ensures Pack(s1, a1) == Pack(s2, a2) <==> s1 == s2 && LowBit(a1) == LowBit(a2)
  {
    if Pack(s1, a1) == Pack(s2, a2) {
      assert SizeOf(Pack(s1, a1)) == s1;
      assert SizeOf(Pack(s2, a2)) == s2;
    }
  }

  /** Every word is the packing of its own size and flag when its bits 1 and 2 are clear. */
  lemma UnpackPack(w: Word)
    requires w % 8 == 0 || w % 8 == 1
    ensures Pack(SizeOf(w), AllocOf(w)) == w
  {
  }
}
