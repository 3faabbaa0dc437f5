/** The buddy-system kernel memory allocator skeleton (kma_bud.c), as written.

    Every block starts with a 32-bit header word holding its size with the
    allocated flag in bit 0; a free block also holds a NEXT pointer right after
    the word. The root page starts with a table of one (first, mask) entry per
    size class; classes are PAGESIZE >> i down to the smallest size that can hold
    a free header.

    The allocator is unfinished: kma_free is empty, and kma_malloc pushes the
    block it picks onto the target class's list again (line 161) instead of
    unlinking and splitting it. This module follows the code as written. */
module Buddy {
  import opened Wrappers
  import opened Pages

  /** sizeof(kma_size_t) + sizeof(void*): size word and NEXT pointer. */
  const FREE_HEADER_SIZE: nat := ALLOC_HEADER_SIZE + POINTER_SIZE

  /** A header word (a kma_size_t). Every word the allocator writes is at
      most PAGESIZE + 1, so its 32-bit width never matters; the one sum on a
      request is a size_t (see Need). */
  type Word = nat

  // ---------------------------------------------------------------------------
  // Header codec (kma_bud.c:53-62). On an unsigned word, `w & 1` is w % 2 and
  // `w & ~1` is w - w % 2; these are the only bit operations the code uses.

  /** SIZE: the word with bit 0 cleared. */
  function Size(w: Word): Word
  {
    w - w % 2
  }

  /** IS_ALLOCATED: bit 0 of the word. */
  function IsAllocated(w: Word): nat
  {
    w % 2
  }

  /** ALLOCATE: `w | 1`. */
  function Allocate(w: Word): Word
  {
    w - w % 2 + 1
  }

  /** DEALLOCATE: `w & ~1`. */
  function Deallocate(w: Word): Word
  {
    w - w % 2
  }

  /** SET_SIZE: `(size & ~1) | (w & 1)`. */
  function SetSize(w: Word, size: Word): Word
  {
    size - size % 2 + w % 2
  }

  /** A word is its size plus its allocated bit; the size is even. */
  lemma WordDecodes(w: Word)
    ensures Size(w) % 2 == 0 && IsAllocated(w) <= 1 && w == Size(w) + IsAllocated(w)
  {
  }

  /** ALLOCATE sets the allocated bit and keeps the size. */
  lemma AllocateSetsBit(w: Word)
    ensures Size(Allocate(w)) == Size(w) && IsAllocated(Allocate(w)) == 1
  {
  }

  /** DEALLOCATE clears the allocated bit and keeps the size. */
  lemma DeallocateClearsBit(w: Word)
    ensures Size(Deallocate(w)) == Size(w) && IsAllocated(Deallocate(w)) == 0
  {
  }

  /** SIZE after SET_SIZE gives the new size with its low bit cleared, which is
      the new size itself when that is even; the allocated bit is kept. */
  lemma SetSizeThenSize(w: Word, size: Word)
    ensures Size(SetSize(w, size)) == Size(size) && IsAllocated(SetSize(w, size)) == IsAllocated(w)
    ensures size % 2 == 0 ==> Size(SetSize(w, size)) == size
  {
  }

  /** The header of a freshly pushed block: free, with the given even size. */
  lemma FreeHeaderWord(w: Word, size: Word)
    requires size % 2 == 0
    ensures Size(SetSize(Deallocate(w), size)) == size && IsAllocated(SetSize(Deallocate(w), size)) == 0
  {
    DeallocateClearsBit(w);
    SetSizeThenSize(Deallocate(w), size);
  }

  // ---------------------------------------------------------------------------
  // Powers of two and shifts

  predicate IsPow2(n: nat)
    decreases n
  {
    n == 1 || (n >= 2 && n % 2 == 0 && IsPow2(n / 2))
  }

  lemma DoublePow2(s: nat)
    requires IsPow2(s)
    ensures IsPow2(2 * s) && (2 * s) / 2 == s
  {
    assert (2 * s) % 2 == 0 && (2 * s) / 2 == s;
  }

  /** Two powers of two within a factor of two of each other are equal. */
  lemma {:induction false} Pow2Between(s: nat, c: nat)
    requires IsPow2(s) && IsPow2(c) && s <= c < 2 * s
    ensures c == s
  {
    if s != 1 {
      Pow2Between(s / 2, c / 2);
    }
  }

  /** `x >> k` on an unsigned value: k halvings. */
  function Shr(x: nat, k: nat): (r: nat)
    ensures r <= x
  {
    if k == 0 then x else Shr(x, k - 1) / 2
  }

  /** Halving first and then shifting by k is shifting by k + 1. */
  lemma {:induction false} ShrHalf(x: nat, k: nat)
    ensures Shr(x / 2, k) == Shr(x, k + 1)
  {
    if k > 0 {
      ShrHalf(x, k - 1);
    }
  }

  lemma {:induction false} ShrAntitone(x: nat, k: nat, m: nat)
    requires k <= m
    ensures Shr(x, m) <= Shr(x, k)
    decreases m - k
  {
    if k < m {
      ShrAntitone(x, k, m - 1);
    }
  }

  // ---------------------------------------------------------------------------
  // Size classes (kma_bud.c:116-125, 140-147, 182-189)

  /** The block size of class i, also its MASK: PAGESIZE >> i. */
  function ClassSize(i: nat): (s: nat)
    ensures s <= PAGESIZE
  {
    Shr(PAGESIZE, i)
  }

  /** The number of classes the halving loop at lines 119-125 creates when it
      starts from `size`. */
  function CountClasses(size: nat): nat
    decreases size
  {
    if size < FREE_HEADER_SIZE then 0 else 1 + CountClasses(size / 2)
  }

  /** The number of classes: 8192 down to 16. */
  const NUM_CLASSES: nat := 10

  /** The halving loop starting from PAGESIZE creates NUM_CLASSES classes. */
  lemma NumClassesIsCount()
    ensures CountClasses(PAGESIZE) == NUM_CLASSES
  {
  }

  /** There is one class per halving of PAGESIZE that is still at least
      FREE_HEADER_SIZE. */
  lemma {:induction false} CountClassesIsHalvings(x: nat, i: nat)
    ensures i < CountClasses(x) <==> Shr(x, i) >= FREE_HEADER_SIZE
  {
    if i > 0 {
      if x < FREE_HEADER_SIZE {
        ShrAntitone(x, 0, i);
      } else {
        CountClassesIsHalvings(x / 2, i - 1);
        ShrHalf(x, i - 1);
      }
    }
  }

  lemma ClassesAreHalvings(i: nat)
    ensures i < NUM_CLASSES <==> ClassSize(i) >= FREE_HEADER_SIZE
  {
    NumClassesIsCount();
    CountClassesIsHalvings(PAGESIZE, i);
  }

  lemma {:induction false} ClassSizeIsPow2(i: nat)
    requires i < NUM_CLASSES
    ensures IsPow2(ClassSize(i))
  {
    if i > 0 {
      ClassSizeIsPow2(i - 1);
      ClassesAreHalvings(i);
    } else {
      assert IsPow2(PAGESIZE);
    }
  }

  lemma EvenClassSize(i: nat)
    requires i < NUM_CLASSES
    ensures ClassSize(i) % 2 == 0
  {
    ClassSizeIsPow2(i);
    ClassesAreHalvings(i);
  }

  /** The class the halving loops stop at when they start from class i, of size
      `size`, and the block must hold `need` bytes: step to the next class while
      half the current size is still at least `need` and at least
      FREE_HEADER_SIZE. */
  function ClassFrom(i: nat, size: nat, need: nat): nat
    decreases size
  {
    if size / 2 >= need && size / 2 >= FREE_HEADER_SIZE then
      ClassFrom(i + 1, size / 2, need)
    else
      i
  }

  /** The class index chosen for a block that must hold `need` bytes. */
  function ClassFor(need: nat): (i: nat)
    ensures i < NUM_CLASSES
  {
    ClassFromFacts(0, PAGESIZE, need);
    ClassFrom(0, PAGESIZE, need)
  }

  lemma {:induction false} ClassFromFacts(i: nat, size: nat, need: nat)
    requires i < NUM_CLASSES && size == ClassSize(i)
    ensures var r := ClassFrom(i, size, need);
      && i <= r < NUM_CLASSES
      && (ClassSize(i) >= need ==> ClassSize(r) >= need)
      && (r + 1 == NUM_CLASSES || ClassSize(r + 1) < need)
    decreases size
  {
    assert ClassSize(i + 1) == size / 2;
    ClassesAreHalvings(i + 1);
    if size / 2 >= need && size / 2 >= FREE_HEADER_SIZE {
      ClassFromFacts(i + 1, size / 2, need);
    }
  }

  /** Class selection picks the smallest class that can hold `need` bytes, and
      never a class below FREE_HEADER_SIZE; a request too large for a page gets
      class 0. */
  lemma ClassForIsSmallestFit(need: nat)
    ensures ClassSize(ClassFor(need)) >= FREE_HEADER_SIZE
    ensures need <= PAGESIZE ==> ClassSize(ClassFor(need)) >= need
    ensures forall j :: ClassFor(need) < j < NUM_CLASSES ==> ClassSize(j) < need
  {
    var r := ClassFor(need);
    ClassFromFacts(0, PAGESIZE, need);
    ClassesAreHalvings(r);
    forall j | r < j < NUM_CLASSES
      ensures ClassSize(j) < need
    {
      ShrAntitone(PAGESIZE, r + 1, j);
    }
  }

  /** Conversely, a class that holds `need` bytes while the next one does not
      is the class selected. */
  lemma ClassForIsUnique(need: nat, j: nat)
    requires j < NUM_CLASSES && need <= ClassSize(j)
    requires j + 1 < NUM_CLASSES ==> ClassSize(j + 1) < need
    ensures ClassFor(need) == j
  {
    var r := ClassFor(need);
    ClassForIsSmallestFit(need);
    if r > j {
      ShrAntitone(PAGESIZE, j + 1, r);
    }
  }

  /** Starting from class i, the halving loops looking for a class that holds
      ClassSize(j) bytes stop at class j. */
  lemma {:induction false} ClassFromClassSize(i: nat, size: nat, j: nat)
    requires i <= j < NUM_CLASSES && size == ClassSize(i)
    ensures ClassFrom(i, size, ClassSize(j)) == j
    decreases j - i
  {
    ClassesAreHalvings(j);
    if i < j {
      ShrAntitone(PAGESIZE, i + 1, j);
      ClassesAreHalvings(i + 1);
      ClassFromClassSize(i + 1, size / 2, j);
    }
  }

  /** A class's own size selects that class. */
  lemma ClassForClassSize(j: nat)
    requires j < NUM_CLASSES
    ensures ClassFor(ClassSize(j)) == j
  {
    ClassFromClassSize(0, PAGESIZE, j);
  }

  /** A power of two between FREE_HEADER_SIZE and PAGESIZE selects the class of
      exactly that size. */
  lemma ClassForPow2(s: nat)
    requires IsPow2(s) && FREE_HEADER_SIZE <= s <= PAGESIZE
    ensures ClassSize(ClassFor(s)) == s
  {
    var r := ClassFor(s);
    ClassForIsSmallestFit(s);
    ClassFromFacts(0, PAGESIZE, s);
    ClassesAreHalvings(r + 1);
    ClassSizeIsPow2(r);
    Pow2Between(s, ClassSize(r));
  }

  /** One more than the largest kma_size_t (an unsigned 32-bit word). */
  const SIZE_MODULUS: nat := 0x1_0000_0000

  /** One more than the largest size_t (an unsigned 64-bit word, the width of
      the 8-byte pointers). */
  const SIZE_T_MODULUS: nat := 0x1_0000_0000_0000_0000

  /** `size + ALLOC_HEADER_SIZE` at line 143. ALLOC_HEADER_SIZE is a sizeof,
      so the kma_size_t request is widened and the sum is a size_t. */
  function Need(size: nat): nat
  {
    (size + ALLOC_HEADER_SIZE) % SIZE_T_MODULUS
  }

  /** For every kma_size_t request the size_t sum is the true one; the
      largest class is selected exactly when the need passes half a page, and
      a request whose need passes the whole page still gets that one
      PAGESIZE-byte class, which is too small for it. */
  lemma NeedNeverWraps(size: nat)
    requires size < SIZE_MODULUS
    ensures Need(size) == size + ALLOC_HEADER_SIZE
    ensures ClassFor(Need(size)) == 0 <==> size + ALLOC_HEADER_SIZE > ClassSize(1)
    ensures size + ALLOC_HEADER_SIZE > PAGESIZE ==>
      ClassFor(Need(size)) == 0 && ClassSize(ClassFor(Need(size))) < Need(size)
  {
    var need := size + ALLOC_HEADER_SIZE;
    assert Need(size) == need;
    ClassForIsSmallestFit(need);
    assert ClassSize(0) == PAGESIZE && ClassSize(1) == PAGESIZE / 2;
    if need <= ClassSize(1) {
      assert ClassFor(need) != 0;
    }
  }

  /** The halving loop of lines 140-147 and 182-189: the class index and class
      size for a block that must hold `need` bytes. */
  method SelectClass(need: nat) returns (i: nat, classSize: nat)
    ensures i == ClassFor(need) && classSize == ClassSize(i)
  {
    classSize := PAGESIZE;
    i := 0;
    while classSize / 2 >= need && classSize / 2 >= FREE_HEADER_SIZE
      invariant classSize == ClassSize(i)
      invariant ClassFrom(i, classSize, need) == ClassFor(need)
      decreases classSize
    {
      i := i + 1;
      classSize := classSize / 2;
    }
  }

  /** The loop of lines 116-125: one class-table entry per class, each with an
      empty free list and its mask set to the class size. */
  method ClassTable() returns (numClasses: nat, heads: seq<Option<Addr>>, masks: seq<nat>)
    ensures numClasses == NUM_CLASSES && |heads| == numClasses && |masks| == numClasses
    ensures forall i :: 0 <= i < numClasses ==> heads[i] == None
    ensures forall i :: 0 <= i < numClasses ==> masks[i] == ClassSize(i)
  {
    var classSize := PAGESIZE;
    numClasses, heads, masks := 0, [], [];
    while classSize >= FREE_HEADER_SIZE
      invariant classSize == ClassSize(numClasses)
      invariant numClasses + CountClasses(classSize) == NUM_CLASSES
      invariant |heads| == numClasses && |masks| == numClasses
      invariant forall i :: 0 <= i < numClasses ==> heads[i] == None
      invariant forall i :: 0 <= i < numClasses ==> masks[i] == ClassSize(i)
      decreases classSize
    {
      heads := heads + [None];
      masks := masks + [classSize];
      numClasses := numClasses + 1;
      classSize := classSize / 2;
    }
  }

  // ---------------------------------------------------------------------------
  // Control block (kma_bud.c:127-131)

  /** sizeof(kma_root_t): the `first` and `mask` pointers of one class-table
      entry (kma_bud.c:68-71). */
  const ROOT_ENTRY_SIZE: nat := 2 * POINTER_SIZE

  /** The doubling loop: the first of c, 2c, 4c, ... that reaches n. */
  function DoubleUntil(c: nat, n: nat): nat
    requires c > 0
    decreases n - c
  {
    if c >= n then c else DoubleUntil(2 * c, n)
  }

  function Max(a: nat, b: nat): nat
  {
    if a >= b then a else b
  }

  /** The control block as the loop of lines 127-131 sizes it: one pointer per
      class, although each class-table entry holds two. */
  function ControlBlockSizeAsWritten(numClasses: nat): nat
  {
    DoubleUntil(1, Max(numClasses * POINTER_SIZE, ALLOC_HEADER_SIZE))
  }

  /** The control block sized for the class table: one kma_root_t per class. */
  function ControlBlockSizeFor(numClasses: nat): nat
  {
    DoubleUntil(1, Max(numClasses * ROOT_ENTRY_SIZE, ALLOC_HEADER_SIZE))
  }

  /** The corrected control block, which holds the whole class table; the root
      page's blocks start right after it (see ControlBlockSizeValue). */
  const CONTROL_BLOCK_SIZE: nat := 256

  lemma {:induction false} DoubleUntilIsLeastPow2(c: nat, n: nat)
    requires IsPow2(c) && (c == 1 || c / 2 < n)
    ensures var r := DoubleUntil(c, n); IsPow2(r) && r >= n && (r == 1 || r / 2 < n)
    decreases n - c
  {
    if c < n {
      DoublePow2(c);
      DoubleUntilIsLeastPow2(2 * c, n);
    }
  }

  /** The control block is the least power of two that holds the class table
      and at least an allocated header. */
  lemma ControlBlockSizeIsLeast(numClasses: nat)
    ensures var r := ControlBlockSizeFor(numClasses);
      && IsPow2(r)
      && r >= numClasses * ROOT_ENTRY_SIZE && r >= ALLOC_HEADER_SIZE
      && (r == 1 || r / 2 < numClasses * ROOT_ENTRY_SIZE || r / 2 < ALLOC_HEADER_SIZE)
  {
    DoubleUntilIsLeastPow2(1, Max(numClasses * ROOT_ENTRY_SIZE, ALLOC_HEADER_SIZE));
  }

  /** For the ten classes the control block is 256 bytes, enough for the
      160-byte class table. */
  lemma ControlBlockSizeValue()
    ensures ControlBlockSizeFor(NUM_CLASSES) == CONTROL_BLOCK_SIZE
    ensures NUM_CLASSES * ROOT_ENTRY_SIZE <= CONTROL_BLOCK_SIZE
  {
    assert DoubleUntil(128, 160) == 256;
    assert DoubleUntil(16, 160) == DoubleUntil(128, 160);
  }

  /** The loop of lines 127-131, counting the whole kma_root_t of each class. */
  method ControlBlockSize(numClasses: nat) returns (cbs: nat)
    ensures cbs == ControlBlockSizeFor(numClasses)
  {
    cbs := 1;
    while cbs < numClasses * ROOT_ENTRY_SIZE || cbs < ALLOC_HEADER_SIZE
      invariant cbs > 0
      invariant DoubleUntil(cbs, Max(numClasses * ROOT_ENTRY_SIZE, ALLOC_HEADER_SIZE)) == ControlBlockSizeFor(numClasses)
      decreases Max(numClasses * ROOT_ENTRY_SIZE, ALLOC_HEADER_SIZE) - cbs
    {
      cbs := cbs * 2;
    }
  }

  // ---------------------------------------------------------------------------
  // The class table as the root page stores it (kma_bud.c:63-71)

  /** Words of the root page, keyed by byte offset: 32-bit values. Memory
      never written reads as 0. */
  type Image = map<nat, nat>

  /** A 64-bit pointer as its two 32-bit words, low word first
      (little-endian, as on x86-64). */
  datatype Pointer = Pointer(lo: nat, hi: nat)

  /** The pointer holding address v. */
  function PointerTo(v: nat): Pointer
  {
    Pointer(v % 0x1_0000_0000, v / 0x1_0000_0000)
  }

  function Load32(m: Image, a: nat): nat
  {
    if a in m then m[a] else 0
  }

  function Load64(m: Image, a: nat): Pointer
  {
    Pointer(Load32(m, a), Load32(m, a + 4))
  }

  function Store64(m: Image, a: nat, p: Pointer): Image
  {
    m[a := p.lo][a + 4 := p.hi]
  }

  /** The byte offsets of FIRST_FREE_NODE(i) and MASK(i). */
  function FirstAt(i: nat): nat
  {
    16 * i
  }

  function MaskAt(i: nat): nat
  {
    16 * i + 8
  }

  /** The table the loop of lines 116-125 stores: FIRST_FREE_NODE(i) NULL
      and MASK(i) the i-th of `masks`. */
  function TableImage(masks: seq<nat>): Image
  {
    if masks == [] then map[]
    else
      var n := |masks| - 1;
      Store64(Store64(TableImage(masks[..n]), FirstAt(n), PointerTo(0)), MaskAt(n), PointerTo(masks[n]))
  }

  /** Entry i of the stored table reads back as the loop wrote it. */
  lemma {:induction false} TableImageAt(masks: seq<nat>, i: nat)
    requires i < |masks|
    ensures Load64(TableImage(masks), FirstAt(i)) == PointerTo(0)
    ensures Load64(TableImage(masks), MaskAt(i)) == PointerTo(masks[i])
  {
    if i < |masks| - 1 {
      TableImageAt(masks[..|masks| - 1], i);
    }
  }

  /** create_page(ptr, size) on the stored words (lines 181-195), with `ptr`
      the block at byte `off` of the root page: the header word at off, NEXT
      at off + 4 and the class's FIRST_FREE_NODE all live in the same
      memory. */
  function CreatePageImage(m: Image, ptr: Pointer, off: nat, size: nat): Image
  {
    var i := ClassFor(size);
    var m1 := m[off := SetSize(Deallocate(Load32(m, off)), ClassSize(i))];
    var m2 := Store64(m1, off + ALLOC_HEADER_SIZE, Load64(m1, FirstAt(i)));
    Store64(m2, FirstAt(i), ptr)
  }

  /** create_page(BASEADDR + 128, 128) on a table whose entries 6 and 8 are
      as the initialisation loop leaves them. */
  lemma FirstTileOnTable(m0: Image, ptr: Pointer)
    requires Load64(m0, FirstAt(6)) == PointerTo(0) && Load64(m0, FirstAt(8)) == PointerTo(0)
    requires Load64(m0, MaskAt(8)) == PointerTo(32)
    ensures var m := CreatePageImage(m0, ptr, 128, 128);
      && Load64(m, FirstAt(6)) == ptr
      && Load64(m, FirstAt(8)) == PointerTo(0x80) && Load64(m, MaskAt(8)) == PointerTo(0)
  {
    assert ClassSize(6) == 128;
    ClassForClassSize(6);
  }

  /** As written, the control block is 128 bytes but the class table takes
      160, so the first block the tiling loop pushes, at offset 128, has its
      header and NEXT on table entry 8: afterwards FIRST_FREE_NODE(8) reads
      0x80 and MASK(8) reads 0. A first kma_malloc(20) selects class 8, so its
      search stops at that non-NULL entry. */
  lemma FirstTileOverwritesTable(masks: seq<nat>, ptr: Pointer)
    requires |masks| == NUM_CLASSES && forall i :: 0 <= i < |masks| ==> masks[i] == ClassSize(i)
    ensures ControlBlockSizeAsWritten(NUM_CLASSES) == 128 < NUM_CLASSES * ROOT_ENTRY_SIZE
    ensures var m0 := TableImage(masks); var m := CreatePageImage(m0, ptr, 128, 128);
      && Load64(m0, FirstAt(8)) == PointerTo(0) && Load64(m0, MaskAt(8)) == PointerTo(32)
      && Load64(m, FirstAt(6)) == ptr
      && Load64(m, FirstAt(8)) == PointerTo(0x80) && Load64(m, MaskAt(8)) == PointerTo(0)
    ensures ClassFor(20 + ALLOC_HEADER_SIZE) == 8
  {
    assert DoubleUntil(64, 80) == 128;
    assert DoubleUntil(8, 80) == DoubleUntil(64, 80);
    TableImageAt(masks, 6);
    TableImageAt(masks, 8);
    assert masks[8] == ClassSize(8) == 32 && ClassSize(9) == 16;
    FirstTileOnTable(TableImage(masks), ptr);
    ClassForIsUnique(24, 8);
  }

  /** The classes a small first request targets. As written, the search from
      classes 8 and 9 reaches the head 0x80 on entry 8, and the search from
      classes 6 and 7 reaches the tile at 128, which heads class 6. */
  lemma FirstRequestClasses(size: nat)
    requires size < SIZE_MODULUS
    ensures size <= 28 ==> ClassFor(Need(size)) >= 8
    ensures 29 <= size <= 124 ==> 6 <= ClassFor(Need(size)) <= 7
  {
    var need := size + ALLOC_HEADER_SIZE;
    NeedNeverWraps(size);
    ClassForIsSmallestFit(need);
    assert ClassSize(6) == 128 && ClassSize(7) == 64 && ClassSize(8) == 32 && ClassSize(9) == 16;
  }

  /** With the control block sized for the table, a block pushed at an offset
      past the table changes only its own class's FIRST_FREE_NODE, to the
      block's address; every MASK and every other entry keeps its value. */
  lemma TileKeepsTable(m: Image, ptr: Pointer, o: nat)
    requires NUM_CLASSES * ROOT_ENTRY_SIZE <= o
    ensures var m' := CreatePageImage(m, ptr, o, o); var c := ClassFor(o);
      && Load64(m', FirstAt(c)) == ptr
      && forall i :: 0 <= i < NUM_CLASSES ==>
           && Load64(m', MaskAt(i)) == Load64(m, MaskAt(i))
           && (i != c ==> Load64(m', FirstAt(i)) == Load64(m, FirstAt(i)))
  {
    var c := ClassFor(o);
    var m1 := m[o := SetSize(Deallocate(Load32(m, o)), ClassSize(c))];
    var m2 := Store64(m1, o + ALLOC_HEADER_SIZE, Load64(m1, FirstAt(c)));
    forall i | 0 <= i < NUM_CLASSES
      ensures Load64(m2, MaskAt(i)) == Load64(m, MaskAt(i)) && Load64(m2, FirstAt(i)) == Load64(m, FirstAt(i))
    {
      assert MaskAt(i) + 4 < o;
    }
  }

  // ---------------------------------------------------------------------------
  // The free-list metadata as a value

  /** The root table's list heads, the header word of every block written so
      far, and the NEXT slot of every block pushed so far. */
  datatype Lists = Lists(heads: seq<Option<Addr>>, words: map<Addr, Word>, nexts: map<Addr, Option<Addr>>)

  /** What a read of a header word gives; memory never written reads as 0. */
  function WordAt(words: map<Addr, Word>, a: Addr): Word
  {
    if a in words then words[a] else 0
  }

  /** The effect of create_page(hdr, size) (lines 181-195). */
  function Push(v: Lists, hdr: Addr, size: nat): (r: Lists)
    requires |v.heads| == NUM_CLASSES
    ensures |r.heads| == NUM_CLASSES
  {
    var i := ClassFor(size);
    Lists(v.heads[i := Some(hdr)],
          v.words[hdr := SetSize(Deallocate(WordAt(v.words, hdr)), ClassSize(i))],
          v.nexts[hdr := v.heads[i]])
  }

  /** For a power-of-two size at least FREE_HEADER_SIZE, the pushed block is the
      new head of the class of exactly that size, is free with that size, points
      at the old head, and nothing else changes. */
  lemma PushPow2(v: Lists, hdr: Addr, s: nat)
    requires |v.heads| == NUM_CLASSES && IsPow2(s) && FREE_HEADER_SIZE <= s <= PAGESIZE
    ensures var i := ClassFor(s); var r := Push(v, hdr, s);
      && ClassSize(i) == s
      && r.heads[i] == Some(hdr) && r.nexts[hdr] == v.heads[i]
      && hdr in r.words && Size(r.words[hdr]) == s && IsAllocated(r.words[hdr]) == 0
      && (forall k :: 0 <= k < NUM_CLASSES && k != i ==> r.heads[k] == v.heads[k])
      && (forall a :: a in v.words && a != hdr ==> a in r.words && r.words[a] == v.words[a])
      && (forall a :: a in v.nexts && a != hdr ==> a in r.nexts && r.nexts[a] == v.nexts[a])
  {
    ClassForPow2(s);
    FreeHeaderWord(WordAt(v.words, hdr), s);
  }

  /** ALLOCATE(hdr) applied to the metadata. */
  function MarkAllocated(v: Lists, hdr: Addr): Lists
  {
    v.(words := v.words[hdr := Allocate(WordAt(v.words, hdr))])
  }

  // ---------------------------------------------------------------------------
  // Initialisation tiling (kma_bud.c:133-137)

  /** The offsets the tiling loop pushes, starting from `t`: t, 2t, 4t, ...
      below PAGESIZE. */
  function Doublings(t: nat): seq<nat>
    requires t > 0
    decreases PAGESIZE - t
  {
    if t >= PAGESIZE then [] else [t] + Doublings(2 * t)
  }

  lemma {:induction false} Pow2Double(s: nat, c: nat)
    requires IsPow2(s) && IsPow2(c) && s < c
    ensures 2 * s <= c && IsPow2(2 * s)
  {
    if 2 * s > c {
      Pow2Between(s, c);
    }
    DoublePow2(s);
  }

  /** Starting from a power of two t <= PAGESIZE, the pushed blocks, the block at
      offset o having size o and so being aligned to its own size, start at t,
      follow one another without gap or overlap, and end exactly at PAGESIZE. */
  lemma {:induction false} DoublingsTile(t: nat)
    requires IsPow2(t) && t <= PAGESIZE
    ensures var os := Doublings(t);
      && (os == [] <==> t == PAGESIZE)
      && (os != [] ==> os[0] == t && os[|os| - 1] + os[|os| - 1] == PAGESIZE)
      && (forall k :: 0 <= k < |os| - 1 ==> os[k] + os[k] == os[k + 1])
    decreases PAGESIZE - t
  {
    if t < PAGESIZE {
      assert IsPow2(PAGESIZE);
      Pow2Double(t, PAGESIZE);
      DoublingsTile(2 * t);
    }
  }

  /** The doublings of a power of two t are exactly the powers of two in
      [t, PAGESIZE). */
  lemma {:induction false} DoublingsArePowers(t: nat, o: nat)
    requires IsPow2(t) && t <= PAGESIZE
    ensures o in Doublings(t) <==> IsPow2(o) && t <= o < PAGESIZE
    decreases PAGESIZE - t
  {
    if t < PAGESIZE {
      assert IsPow2(PAGESIZE);
      Pow2Double(t, PAGESIZE);
      DoublingsArePowers(2 * t, o);
      if IsPow2(o) && t < o < 2 * t {
        Pow2Between(t, o);
      }
    }
  }

  /** An offset the tiling loop of lines 133-137 has pushed before reaching
      offset t: a power of two from the control block size on. */
  predicate TiledBelow(o: nat, t: nat)
  {
    IsPow2(o) && CONTROL_BLOCK_SIZE <= o < t
  }

  /** Between t and 2t the tiling adds only the offset t itself. */
  lemma TiledBelowStep(o: nat, t: nat)
    requires IsPow2(t)
    ensures TiledBelow(o, 2 * t) <==> TiledBelow(o, t) || (o == t && CONTROL_BLOCK_SIZE <= t)
  {
    if IsPow2(o) && t <= o < 2 * t {
      Pow2Between(t, o);
    }
  }

  /** The class table once the tiling loop has pushed every block below offset
      t: the class of size o holds the block at offset o for each offset pushed,
      and every other class is empty. */
  function TiledHeads(p: nat, t: nat): (h: seq<Option<Addr>>)
    ensures |h| == NUM_CLASSES
  {
    seq(NUM_CLASSES, i requires 0 <= i < NUM_CLASSES =>
          if TiledBelow(ClassSize(i), t) then Some(Addr(p, ClassSize(i))) else None)
  }

  /** The header words then: the block at offset o is free with size o. */
  function TiledWords(p: nat, t: nat): map<Addr, Word>
  {
    map o: nat | o < t && TiledBelow(o, t) :: Addr(p, o) := o
  }

  /** The NEXT slots then: every pushed block ends its list. */
  function TiledNexts(p: nat, t: nat): map<Addr, Option<Addr>>
  {
    map o: nat | o < t && TiledBelow(o, t) :: Addr(p, o) := None
  }

  function TiledUpTo(p: nat, t: nat): (r: Lists)
    ensures |r.heads| == NUM_CLASSES
  {
    Lists(TiledHeads(p, t), TiledWords(p, t), TiledNexts(p, t))
  }

  /** The root page's metadata right after initialisation. */
  function InitLists(p: nat): (r: Lists)
    ensures |r.heads| == NUM_CLASSES
  {
    TiledUpTo(p, PAGESIZE)
  }

  /** Before the tiling loop every class is empty and no block is written. */
  lemma TiledUpToStart(p: nat, heads: seq<Option<Addr>>)
    requires |heads| == NUM_CLASSES && forall i :: 0 <= i < NUM_CLASSES ==> heads[i] == None
    ensures IsPow2(CONTROL_BLOCK_SIZE)
    ensures TiledUpTo(p, CONTROL_BLOCK_SIZE) == Lists(heads, map[], map[])
  {
    var r := TiledUpTo(p, CONTROL_BLOCK_SIZE);
    assert r.heads == heads;
    assert r.words == map[];
    assert r.nexts == map[];
  }

  lemma TiledHeadsStep(p: nat, t: nat)
    requires IsPow2(t) && CONTROL_BLOCK_SIZE <= t < PAGESIZE
    ensures TiledHeads(p, t)[ClassFor(t) := Some(Addr(p, t))] == TiledHeads(p, 2 * t)
  {
    var it := ClassFor(t);
    ClassForPow2(t);
    forall i | 0 <= i < NUM_CLASSES
      ensures TiledHeads(p, t)[it := Some(Addr(p, t))][i] == TiledHeads(p, 2 * t)[i]
    {
      TiledBelowStep(ClassSize(i), t);
      if i != it {
        ClassForClassSize(i);
      }
    }
  }

  /** The blocks pushed below offset t, as a finite map domain. */
  predicate TiledKey(p: nat, t: nat, a: Addr)
  {
    a.page == p && TiledBelow(a.off, t)
  }

  lemma TiledWordsAt(p: nat, t: nat, a: Addr)
    ensures a in TiledWords(p, t) <==> TiledKey(p, t, a)
    ensures a in TiledWords(p, t) ==> TiledWords(p, t)[a] == a.off
  {
    if TiledKey(p, t, a) {
      assert a == Addr(p, a.off);
    }
  }

  lemma TiledNextsAt(p: nat, t: nat, a: Addr)
    ensures a in TiledNexts(p, t) <==> TiledKey(p, t, a)
    ensures a in TiledNexts(p, t) ==> TiledNexts(p, t)[a] == None
  {
    if TiledKey(p, t, a) {
      assert a == Addr(p, a.off);
    }
  }

  /** Adding the block at offset t to a map keyed by the blocks below t gives
      the map keyed by the blocks below 2t. */
  lemma {:induction false} TiledMapStep<V>(m1: map<Addr, V>, m2: map<Addr, V>, p: nat, t: nat, v: V)
    requires IsPow2(t) && CONTROL_BLOCK_SIZE <= t
    requires forall a :: a in m1 <==> TiledKey(p, t, a)
    requires forall a :: a in m2 <==> TiledKey(p, 2 * t, a)
    requires forall a :: a in m2 && a != Addr(p, t) ==> a in m1 && m1[a] == m2[a]
    requires Addr(p, t) in m2 && m2[Addr(p, t)] == v
    ensures m1[Addr(p, t) := v] == m2
  {
    var m := m1[Addr(p, t) := v];
    forall a
      ensures a in m <==> a in m2
    {
      TiledBelowStep(a.off, t);
    }
  }

  lemma TiledWordsStep(p: nat, t: nat)
    requires IsPow2(t) && CONTROL_BLOCK_SIZE <= t
    ensures TiledWords(p, t)[Addr(p, t) := t] == TiledWords(p, 2 * t)
  {
    var m1, m2 := TiledWords(p, t), TiledWords(p, 2 * t);
    forall a
      ensures a in m1 <==> TiledKey(p, t, a)
      ensures a in m2 <==> TiledKey(p, 2 * t, a)
      ensures a in m2 && a != Addr(p, t) ==> a in m1 && m1[a] == m2[a]
    {
      TiledWordsAt(p, t, a);
      TiledWordsAt(p, 2 * t, a);
      TiledBelowStep(a.off, t);
    }
    TiledWordsAt(p, 2 * t, Addr(p, t));
    TiledMapStep(m1, m2, p, t, t);
  }

  lemma TiledNextsStep(p: nat, t: nat)
    requires IsPow2(t) && CONTROL_BLOCK_SIZE <= t
    ensures TiledNexts(p, t)[Addr(p, t) := None] == TiledNexts(p, 2 * t)
  {
    var m1, m2 := TiledNexts(p, t), TiledNexts(p, 2 * t);
    forall a
      ensures a in m1 <==> TiledKey(p, t, a)
      ensures a in m2 <==> TiledKey(p, 2 * t, a)
      ensures a in m2 && a != Addr(p, t) ==> a in m1 && m1[a] == m2[a]
    {
      TiledNextsAt(p, t, a);
      TiledNextsAt(p, 2 * t, a);
      TiledBelowStep(a.off, t);
    }
    TiledNextsAt(p, 2 * t, Addr(p, t));
    TiledMapStep(m1, m2, p, t, None);
  }

  /** One step of the tiling loop: pushing the block at offset t, of size t,
      extends the tiling to offset 2t. */
  lemma TiledUpToStep(p: nat, t: nat)
    requires IsPow2(t) && CONTROL_BLOCK_SIZE <= t < PAGESIZE
    ensures Push(TiledUpTo(p, t), Addr(p, t), t) == TiledUpTo(p, 2 * t)
    ensures IsPow2(2 * t) && 2 * t <= PAGESIZE
  {
    assert IsPow2(PAGESIZE);
    Pow2Double(t, PAGESIZE);
    var v := TiledUpTo(p, t);
    ClassForPow2(t);
    TiledHeadsStep(p, t);
    TiledWordsStep(p, t);
    TiledNextsStep(p, t);
    assert t % 2 == 0;
    assert WordAt(v.words, Addr(p, t)) == 0;
    assert SetSize(Deallocate(0), t) == t;
    assert TiledBelow(ClassSize(ClassFor(t)), t) == false;
  }

  /** The blocks initialisation writes are exactly the doublings of the control
      block size, which tile [CONTROL_BLOCK_SIZE, PAGESIZE); each is free with a
      size equal to its offset, has a NULL NEXT, and heads the list of the class
      of that size. */
  lemma InitListsTile(p: nat, o: nat)
    ensures Addr(p, o) in InitLists(p).words <==> o in Doublings(CONTROL_BLOCK_SIZE)
    ensures o in Doublings(CONTROL_BLOCK_SIZE) ==>
      var r := InitLists(p); var a := Addr(p, o);
      && Size(r.words[a]) == o && IsAllocated(r.words[a]) == 0 && r.nexts[a] == None
      && ClassSize(ClassFor(o)) == o && r.heads[ClassFor(o)] == Some(a)
  {
    assert IsPow2(CONTROL_BLOCK_SIZE);
    DoublingsArePowers(CONTROL_BLOCK_SIZE, o);
    if o in Doublings(CONTROL_BLOCK_SIZE) {
      ClassForPow2(o);
      assert o % 2 == 0;
    }
  }

  // ---------------------------------------------------------------------------
  // Search (kma_bud.c:149-153)

  /** The class the search loop stops at: the nearest class at or above the
      target (toward class 0) whose list is not empty, or -1. */
  function FirstFreeClass(heads: seq<Option<Addr>>, i: int): (c: int)
    requires -1 <= i < |heads|
    ensures -1 <= c <= i && (c >= 0 ==> heads[c].Some?)
    decreases i + 1
  {
    if i < 0 then -1 else if heads[i].Some? then i else FirstFreeClass(heads, i - 1)
  }

  lemma {:induction false} FirstFreeClassIsNearest(heads: seq<Option<Addr>>, i: int)
    requires -1 <= i < |heads|
    ensures var c := FirstFreeClass(heads, i); forall d :: c < d <= i ==> heads[d].None?
    decreases i + 1
  {
    if i >= 0 && heads[i].None? {
      FirstFreeClassIsNearest(heads, i - 1);
    }
  }

  // ---------------------------------------------------------------------------
  // The allocator

  class Allocator {
    const src: PageSource
    /** root_page, as its frame number. */
    var root: Option<nat>
    /** FIRST_FREE_NODE(i) of the root page's class table. */
    var heads: seq<Option<Addr>>
    /** MASK(i) of the root page's class table. */
    var masks: seq<nat>
    /** The header word of every block written so far. */
    var words: map<Addr, Word>
    /** The NEXT slot of every block pushed so far. */
    var nexts: map<Addr, Option<Addr>>

    ghost predicate Valid()
      reads this, src
    {
      && src.Valid()
      && (root.None? ==> heads == [] && masks == [] && words == map[] && nexts == map[])
      && (root.Some? ==>
            && root.value in src.owned
            && |heads| == NUM_CLASSES && |masks| == NUM_CLASSES
            && (forall i :: 0 <= i < NUM_CLASSES ==> masks[i] == ClassSize(i)))
    }

    ghost function View(): Lists
      reads this
    {
      Lists(heads, words, nexts)
    }

    constructor (src: PageSource)
      requires src.Valid()
      ensures Valid() && this.src == src && root == None
    {
      this.src := src;
      root := None;
      heads, masks, words, nexts := [], [], map[], map[];
    }

    /** create_page(hdr, size): push hdr onto the list of the class for `size`,
        marked free with that class's size. */
    method CreatePage(hdr: Addr, size: nat)
      requires Valid() && root.Some?
      modifies this
      ensures Valid() && root == old(root) && masks == old(masks)
      ensures View() == Push(old(View()), hdr, size)
    {
      var i, classSize := SelectClass(size);
      var w := Deallocate(WordAt(words, hdr));
      w := SetSize(w, classSize);
      words := words[hdr := w];
      nexts := nexts[hdr := heads[i]];
      heads := heads[i := Some(hdr)];
    }

    /** The first-call initialisation of lines 111-138. */
    method Initialise()
      requires Valid() && root.None?
      modifies this, src
      ensures Valid() && root.Some?
      ensures root.value !in old(src.owned) && src.owned == old(src.owned) + {root.value}
      ensures View() == InitLists(root.value)
    {
      var p := src.GetPage();
      root := Some(p);
      var numClasses;
      numClasses, heads, masks := ClassTable();
      var cbs := ControlBlockSize(numClasses);
      ControlBlockSizeValue();
      TiledUpToStart(p, heads);
      TileRootPage(cbs);
    }

    /** The tiling loop of lines 133-137: push the blocks at offsets cbs, 2 cbs,
        ... up to PAGESIZE / 2, each of a size equal to its offset. */
    method TileRootPage(cbs: nat)
      requires Valid() && root.Some? && cbs == CONTROL_BLOCK_SIZE
      requires View() == TiledUpTo(root.value, cbs)
      modifies this
      ensures Valid() && root == old(root) && masks == old(masks)
      ensures View() == InitLists(root.value)
    {
      var p := root.value;
      var total := cbs;
      while total < PAGESIZE
        invariant Valid() && root == Some(p) && masks == old(masks)
        invariant IsPow2(total) && CONTROL_BLOCK_SIZE <= total <= PAGESIZE
        invariant heads == TiledHeads(p, total) && words == TiledWords(p, total)
        invariant nexts == TiledNexts(p, total)
        decreases PAGESIZE - total
      {
        PushTile(total);
        total := total * 2;
      }
      assert total == PAGESIZE;
    }

    /** One iteration of the tiling loop: create_page(BASEADDR + t, t). */
    method PushTile(t: nat)
      requires Valid() && root.Some?
      requires IsPow2(t) && CONTROL_BLOCK_SIZE <= t < PAGESIZE
      requires View() == TiledUpTo(root.value, t)
      modifies this
      ensures Valid() && root == old(root) && masks == old(masks)
      ensures IsPow2(2 * t) && 2 * t <= PAGESIZE
      ensures View() == TiledUpTo(root.value, 2 * t)
    {
      TiledUpToStep(root.value, t);
      CreatePage(Addr(root.value, t), t);
    }

    /** The search loop of lines 149-153. */
    method Search(target: nat) returns (node: Option<Addr>)
      requires Valid() && root.Some? && target < NUM_CLASSES
      ensures var c := FirstFreeClass(heads, target);
        node == if c >= 0 then heads[c] else None
    {
      node := None;
      var i: int := target;
      while node.None? && i >= 0
        invariant -1 <= i <= target
        invariant var c := FirstFreeClass(heads, target);
          if node.Some? then c >= 0 && node == heads[c] else c == FirstFreeClass(heads, i)
        decreases i + 1
      {
        node := heads[i];
        i := i - 1;
      }
    }

    /** Lines 149-159: the head of the nearest non-empty list at or above class
        `target`, or else the base of a fresh page pushed as a class-0 block. */
    method FindBlock(target: nat) returns (hdr: Addr)
      requires Valid() && root.Some? && target < NUM_CLASSES
      modifies this, src
      ensures Valid() && root == old(root) && masks == old(masks)
      ensures var c := FirstFreeClass(old(heads), target);
        if c >= 0 then
          && hdr == old(heads)[c].value
          && src.owned == old(src.owned) && View() == old(View())
        else
          && hdr.off == 0 && hdr.page !in old(src.owned)
          && src.owned == old(src.owned) + {hdr.page}
          && View() == Push(old(View()), hdr, PAGESIZE)
    {
      var node := Search(target);
      if node.None? {
        var page := src.GetPage();
        CreatePage(Addr(page, 0), PAGESIZE);
        hdr := Addr(page, 0);
      } else {
        hdr := node.value;
      }
    }

    /** ALLOCATE(hdr). */
    method MarkAllocatedAt(hdr: Addr)
      requires Valid() && root.Some?
      modifies this
      ensures Valid() && root == old(root) && masks == old(masks)
      ensures View() == MarkAllocated(old(View()), hdr)
    {
      words := words[hdr := Allocate(WordAt(words, hdr))];
    }

    /** Lines 149-170 once the target class i is known: find a block, push it
        onto class i's list again and mark it allocated. */
    method TakeBlock(i: nat, optimalSize: nat) returns (hdr: Addr)
      requires Valid() && root.Some? && i < NUM_CLASSES && optimalSize == ClassSize(i)
      modifies this, src
      ensures Valid() && root == old(root) && masks == old(masks)
      ensures hdr in words && Size(words[hdr]) == optimalSize && IsAllocated(words[hdr]) == 1
      ensures var c := FirstFreeClass(old(heads), i);
        if c >= 0 then
          && hdr == old(heads)[c].value
          && src.owned == old(src.owned)
          && View() == MarkAllocated(Push(old(View()), hdr, optimalSize), hdr)
        else
          && hdr.off == 0 && hdr.page !in old(src.owned)
          && src.owned == old(src.owned) + {hdr.page}
          && View() == MarkAllocated(Push(Push(old(View()), hdr, PAGESIZE), hdr, optimalSize), hdr)
    {
      hdr := FindBlock(i);
      ghost var v1 := View();
      CreatePage(hdr, optimalSize);
      ghost var v2 := View();
      MarkAllocatedAt(hdr);
      // The split loop of lines 164-168 starts with total_size == optimal_size,
      // which is SIZE(node) again after the two lines above, so its body never
      // runs.
      ClassForClassSize(i);
      EvenClassSize(i);
      FreeHeaderWord(WordAt(v1.words, hdr), optimalSize);
      AllocateSetsBit(v2.words[hdr]);
    }

    /** kma_malloc(size), as written: after selecting the class and searching,
        the chosen block is pushed onto the target class's list again and marked
        allocated; it is not unlinked from the list it was on, and it is not
        split. */
    method KmaMalloc(size: nat) returns (ptr: Addr)
      requires Valid() && size < SIZE_MODULUS
      modifies this, src
      ensures Valid() && root.Some? && ptr.off >= ALLOC_HEADER_SIZE
      ensures old(root).Some? ==> root == old(root) && masks == old(masks)
      ensures old(root).None? ==> root.value !in old(src.owned)
      ensures var j := ClassFor(Need(size));
        var v0 := if old(root).None? then InitLists(root.value) else old(View());
        var c := FirstFreeClass(v0.heads, j);
        var hdr := Header(ptr);
        if c >= 0 then
          && hdr == v0.heads[c].value
          && src.owned == old(src.owned) + {root.value}
          && View() == MarkAllocated(Push(v0, hdr, ClassSize(j)), hdr)
        else
          && hdr.off == 0 && hdr.page !in old(src.owned) && hdr.page != root.value
          && src.owned == old(src.owned) + {root.value, hdr.page}
          && View() == MarkAllocated(Push(Push(v0, hdr, PAGESIZE), hdr, ClassSize(j)), hdr)
    {
      if root.None? {
        Initialise();
      }
      ghost var v0 := View();
      assert v0 == if old(root).None? then InitLists(root.value) else old(View());
      var i, optimalSize := SelectClass((size + ALLOC_HEADER_SIZE) % SIZE_T_MODULUS);
      var hdr := TakeBlock(i, optimalSize);
      ptr := Payload(hdr);
      assert Header(ptr) == hdr;
    }

    /** kma_free: its body is empty in this skeleton, so the allocator and
        its pages are left as they were. */
    method KmaFree(ptr: Addr, size: nat)
      ensures unchanged(this) && unchanged(src)
    {
    }
  }

  /** What kma_malloc leaves behind, as written: the returned block is marked
      allocated with the target class's size, yet it is the head of the target
      class's free list; when it came from that same list, its NEXT points at
      itself. */
  lemma MallocAsWritten(v0: Lists, hdr: Addr, j: nat)
    requires |v0.heads| == NUM_CLASSES && j < NUM_CLASSES
    ensures var r := MarkAllocated(Push(v0, hdr, ClassSize(j)), hdr);
      && r.heads[j] == Some(hdr)
      && hdr in r.words && IsAllocated(r.words[hdr]) == 1 && Size(r.words[hdr]) == ClassSize(j)
      && (v0.heads[j] == Some(hdr) ==> r.nexts[hdr] == Some(hdr))
  {
    ClassForClassSize(j);
    EvenClassSize(j);
    var w0 := WordAt(v0.words, hdr);
    FreeHeaderWord(w0, ClassSize(j));
    AllocateSetsBit(SetSize(Deallocate(w0), ClassSize(j)));
  }
}
