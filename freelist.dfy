/** The free list of the resource-map allocator (kma_rm.c) as a value: the
    sequence of free block headers in list order, and the SIZE word stored in
    each header. A block at header `a` with SIZE `n` occupies the bytes
    [a.off, a.off + ALLOC_HEADER_SIZE + n) of page a.page.

    The operations here are the list-level effect of the code's pointer
    walking: where the code stops a walk (first fit, the insert position),
    where it splits a block, and which neighbours it merges. */
module FreeList {
  import opened Wrappers
  import opened Pages

  /** sizeof(void*): the first word of every page, before its first block. */
  const CONTROL_BLOCK_SIZE: nat := POINTER_SIZE

  /** sizeof(kma_size_t) + 2 * sizeof(void*): size word, PREV and NEXT. */
  const FREE_HEADER_SIZE: nat := ALLOC_HEADER_SIZE + 2 * POINTER_SIZE

  /** The smallest request the allocator hands out (kma_rm.c:191-193). */
  const MIN_REQUEST: nat := FREE_HEADER_SIZE - ALLOC_HEADER_SIZE

  /** SIZE of the block that spans a whole page after its control block. */
  const PAGE_BLOCK_SIZE: nat := PAGESIZE - CONTROL_BLOCK_SIZE - ALLOC_HEADER_SIZE

  // ---------------------------------------------------------------------------
  // Extents

  /** The offset just past the block with header `a` and SIZE `size`. */
  function End(a: Addr, size: nat): nat
  {
    a.off + ALLOC_HEADER_SIZE + size
  }

  /** The block (a, size) lies wholly below address b. */
  predicate EndsBefore(a: Addr, size: nat, b: Addr)
  {
    a.page < b.page || (a.page == b.page && End(a, size) <= b.off)
  }

  /** Two blocks share no byte. */
  predicate Disjoint(a: Addr, sa: nat, b: Addr, sb: nat)
  {
    EndsBefore(a, sa, b) || EndsBefore(b, sb, a)
  }

  /** The merge test of kma_rm.c:305-307 and 318-320: same page, and the first
      block ends exactly where the second begins. */
  predicate Adjacent(a: Addr, sa: nat, b: Addr)
  {
    a.page == b.page && End(a, sa) == b.off
  }

  /** A block lies between the page's control block and its end. */
  predicate InPage(a: Addr, size: nat)
  {
    CONTROL_BLOCK_SIZE <= a.off && End(a, size) <= PAGESIZE
  }

  /** Of two disjoint blocks, the one at the lower address ends first. */
  lemma DisjointOrder(a: Addr, sa: nat, b: Addr, sb: nat)
    requires Disjoint(a, sa, b, sb) && Below(a, b)
    ensures EndsBefore(a, sa, b)
  {
  }

  // ---------------------------------------------------------------------------
  // The list invariant

  /** Every header on the list has a SIZE, and each block ends before every
      later one begins: the list is strictly increasing by address and its
      blocks do not overlap. */
  predicate Ordered(s: seq<Addr>, z: map<Addr, nat>)
  {
    && (forall k :: 0 <= k < |s| ==> s[k] in z)
    && (forall i, j :: 0 <= i < j < |s| ==> EndsBefore(s[i], z[s[i]], s[j]))
  }

  lemma OrderedBelow(s: seq<Addr>, z: map<Addr, nat>, i: nat, j: nat)
    requires Ordered(s, z) && i < j < |s|
    ensures Below(s[i], s[j]) && s[i] != s[j]
  {
    assert EndsBefore(s[i], z[s[i]], s[j]);
  }

  /** Ordered only looks at the sizes of the blocks on the list. */
  lemma OrderedFrame(s: seq<Addr>, z: map<Addr, nat>, z': map<Addr, nat>)
    requires Ordered(s, z)
    requires forall k :: 0 <= k < |s| ==> s[k] in z' && z'[s[k]] == z[s[k]]
    ensures Ordered(s, z')
  {
    forall i, j | 0 <= i < j < |s|
      ensures EndsBefore(s[i], z'[s[i]], s[j])
    {
      assert EndsBefore(s[i], z[s[i]], s[j]);
    }
  }

  /** A block of an ordered list is disjoint from every other block on it, and
      so from every block inside its own extent. */
  lemma OrderedDisjoint(s: seq<Addr>, z: map<Addr, nat>, k: nat, a: Addr, sa: nat)
    requires Ordered(s, z) && k < |s|
    requires a.page == s[k].page && s[k].off <= a.off && End(a, sa) <= End(s[k], z[s[k]])
    ensures forall j :: 0 <= j < |s| && j != k ==> Disjoint(s[j], z[s[j]], a, sa)
  {
    forall j | 0 <= j < |s| && j != k
      ensures Disjoint(s[j], z[s[j]], a, sa)
    {
      if j < k {
        assert EndsBefore(s[j], z[s[j]], s[k]);
      } else {
        assert EndsBefore(s[k], z[s[k]], s[j]);
      }
    }
  }

  // ---------------------------------------------------------------------------
  // Removal and insertion

  /** The list without its k-th block. */
  function Remove(s: seq<Addr>, k: nat): (r: seq<Addr>)
    requires k < |s|
    ensures |r| == |s| - 1
    ensures forall j :: 0 <= j < |r| ==> r[j] == if j < k then s[j] else s[j + 1]
  {
    s[..k] + s[k + 1..]
  }

  /** Removing a block keeps the list ordered, whatever is then written to the
      removed block's SIZE, and the removed header is no longer on it. */
  lemma RemoveOrdered(s: seq<Addr>, z: map<Addr, nat>, k: nat, n: nat)
    requires Ordered(s, z) && k < |s|
    ensures Ordered(Remove(s, k), z[s[k] := n]) && s[k] !in Remove(s, k)
  {
    var r := Remove(s, k);
    forall j | 0 <= j < |r|
      ensures r[j] != s[k]
    {
      if j < k {
        OrderedBelow(s, z, j, k);
      } else {
        OrderedBelow(s, z, k, j + 1);
      }
    }
    forall i, j | 0 <= i < j < |r|
      ensures EndsBefore(r[i], z[s[k] := n][r[i]], r[j])
    {
      var i' := if i < k then i else i + 1;
      var j' := if j < k then j else j + 1;
      assert EndsBefore(s[i'], z[s[i']], s[j']);
    }
  }

  /** The walk of kma_rm.c:278-281 stops at the first block not below `a`. */
  function InsertPos(s: seq<Addr>, a: Addr): (p: nat)
    ensures p <= |s|
  {
    if s == [] || !Below(s[0], a) then 0 else 1 + InsertPos(s[1..], a)
  }

  lemma {:induction false} InsertPosIs(s: seq<Addr>, a: Addr, i: nat)
    requires i <= |s| && (forall j :: 0 <= j < i ==> Below(s[j], a))
    requires i == |s| || !Below(s[i], a)
    ensures InsertPos(s, a) == i
  {
    if i > 0 {
      InsertPosIs(s[1..], a, i - 1);
    }
  }

  lemma {:induction false} InsertPosBelow(s: seq<Addr>, a: Addr)
    ensures forall j :: 0 <= j < InsertPos(s, a) ==> Below(s[j], a)
    ensures InsertPos(s, a) < |s| ==> !Below(s[InsertPos(s, a)], a)
  {
    if s != [] && Below(s[0], a) {
      InsertPosBelow(s[1..], a);
    }
  }

  /** The free list after add_and_insert_free_header(a, _). */
  function Insert(s: seq<Addr>, a: Addr): (r: seq<Addr>)
    ensures |r| == |s| + 1
  {
    var p := InsertPos(s, a);
    s[..p] + [a] + s[p..]
  }

  lemma InsertAt(s: seq<Addr>, a: Addr)
    ensures var p, r := InsertPos(s, a), Insert(s, a);
      && r[p] == a
      && (forall j :: 0 <= j < p ==> r[j] == s[j])
      && (forall j :: p < j < |r| ==> r[j] == s[j - 1])
  {
  }

  /** Inserting a block that overlaps no block of an ordered list keeps it
      ordered: the walk puts it after every block below it and before every
      block above it. */
  lemma InsertOrdered(s: seq<Addr>, z: map<Addr, nat>, a: Addr, sa: nat)
    requires Ordered(s, z)
    requires forall k :: 0 <= k < |s| ==> Disjoint(s[k], z[s[k]], a, sa)
    ensures a !in s && Ordered(Insert(s, a), z[a := sa])
  {
    var p, r, z' := InsertPos(s, a), Insert(s, a), z[a := sa];
    InsertPosBelow(s, a);
    InsertAt(s, a);
    forall k | 0 <= k < |s|
      ensures s[k] != a
    {
      assert Disjoint(s[k], z[s[k]], a, sa);
    }
    forall j | p <= j < |s|
      ensures EndsBefore(a, sa, s[j])
    {
      if j > p {
        OrderedBelow(s, z, p, j);
      }
      assert Below(a, s[j]);
      DisjointOrder(a, sa, s[j], z[s[j]]);
    }
    forall i, j | 0 <= i < j < |r|
      ensures EndsBefore(r[i], z'[r[i]], r[j])
    {
      if i == p {
      } else if j == p {
        DisjointOrder(s[i], z[s[i]], a, sa);
      } else {
        var i' := if i < p then i else i - 1;
        var j' := if j < p then j else j - 1;
        assert EndsBefore(s[i'], z[s[i']], s[j']);
      }
    }
  }

  // ---------------------------------------------------------------------------
  // Allocation

  /** kma_rm.c:191-193: a request too small to hold PREV and NEXT once freed is
      raised to MIN_REQUEST. */
  function Request(size: nat): (n: nat)
  {
    if size < MIN_REQUEST then MIN_REQUEST else size
  }

  /** The raised request is the least size at least `size` whose block can hold
      a free header. */
  lemma RequestIsLeast(size: nat, n: nat)
    ensures Request(size) >= size && Request(size) + ALLOC_HEADER_SIZE >= FREE_HEADER_SIZE
    ensures n >= size && n + ALLOC_HEADER_SIZE >= FREE_HEADER_SIZE ==> n >= Request(size)
  {
  }

  /** kma_rm.c:197-202: the index where the first-fit walk stops, |s| if no
      block is large enough. */
  function FirstFit(s: seq<Addr>, z: map<Addr, nat>, need: nat): (k: nat)
    requires forall j :: 0 <= j < |s| ==> s[j] in z
    ensures k <= |s| && (k < |s| ==> z[s[k]] >= need)
    ensures forall j :: 0 <= j < k ==> z[s[j]] < need
  {
    if s == [] then 0
    else if z[s[0]] >= need then 0
    else 1 + FirstFit(s[1..], z, need)
  }

  lemma {:induction false} FirstFitIs(s: seq<Addr>, z: map<Addr, nat>, need: nat, k: nat)
    requires forall j :: 0 <= j < |s| ==> s[j] in z
    requires k <= |s| && (forall j :: 0 <= j < k ==> z[s[j]] < need)
    requires k == |s| || z[s[k]] >= need
    ensures FirstFit(s, z, need) == k
  {
    if k > 0 {
      FirstFitIs(s[1..], z, need, k - 1);
    }
  }

  /** On an ordered list, first fit picks the lowest-address block that is
      large enough. */
  lemma FirstFitIsLowest(s: seq<Addr>, z: map<Addr, nat>, need: nat)
    requires Ordered(s, z)
    ensures var k := FirstFit(s, z, need);
      forall j :: 0 <= j < |s| && z[s[j]] >= need ==> k < |s| && (j == k || Below(s[k], s[j]))
  {
    var k := FirstFit(s, z, need);
    forall j | 0 <= j < |s| && z[s[j]] >= need
      ensures k < |s| && (j == k || Below(s[k], s[j]))
    {
      if j != k {
        OrderedBelow(s, z, k, j);
      }
    }
  }

  /** kma_rm.c:222-224: the SIZE the chosen block keeps. The whole block is
      handed out when the rest could not hold a free header. */
  function CarveSize(target: nat, need: nat): nat
    requires need <= target
  {
    if target - need < FREE_HEADER_SIZE then target else need
  }

  /** The header of the free block split off the end of block `hdr`. */
  function Remainder(hdr: Addr, n: nat): Addr
  {
    Offset(hdr, ALLOC_HEADER_SIZE + n)
  }

  /** kma_rm.c:219-246 on the list: the k-th block becomes allocated with
      SIZE CarveSize, and when it was split the rest goes back on the list as a
      free block of its own. */
  function Carve(s: seq<Addr>, z: map<Addr, nat>, k: nat, need: nat): (r: (seq<Addr>, map<Addr, nat>))
    requires k < |s| && s[k] in z && need <= z[s[k]]
  {
    var hdr, target := s[k], z[s[k]];
    var n := CarveSize(target, need);
    if n == target then
      (Remove(s, k), z[hdr := n])
    else
      (Insert(Remove(s, k), Remainder(hdr, n)), z[hdr := n][Remainder(hdr, n) := target - ALLOC_HEADER_SIZE - n])
  }

  /** The carve as the code writes it: the SIZE word of the block, then, when
      it was split, the SIZE word of the rest. */
  lemma CarveWrites(s: seq<Addr>, z: map<Addr, nat>, k: nat, hdr: Addr, target: nat, need: nat, n: nat, rs: nat)
    requires k < |s| && s[k] == hdr && hdr in z && z[hdr] == target && need <= target
    requires n == if target - need < FREE_HEADER_SIZE then target else need
    requires n != target ==> rs + ALLOC_HEADER_SIZE + n == target
    ensures n == target ==> Carve(s, z, k, need).0 == Remove(s, k) && Carve(s, z, k, need).1 == z[hdr := n]
    ensures n != target ==>
      && Carve(s, z, k, need).0 == Insert(Remove(s, k), Remainder(hdr, n))
      && Carve(s, z, k, need).1 == z[hdr := n][Remainder(hdr, n) := rs]
  {
  }

  /** Splitting: the allocated block holds at least `need` bytes; either it is
      the whole block, whose rest was too small for a free header, or it has
      exactly `need` bytes and the rest, at least a free header, starts right
      after it. Bytes are conserved either way, the list stays ordered and the
      allocated header is no longer on it. */
  lemma CarveSplits(s: seq<Addr>, z: map<Addr, nat>, k: nat, need: nat)
    requires Ordered(s, z) && k < |s| && need <= z[s[k]]
    ensures var hdr, target := s[k], z[s[k]]; var r := Carve(s, z, k, need);
      && Ordered(r.0, r.1) && hdr !in r.0 && hdr in r.1 && r.1[hdr] >= need
      && (r.1[hdr] == target ==> target - need < FREE_HEADER_SIZE && |r.0| == |s| - 1)
      && (r.1[hdr] != target ==>
            var rem := Remainder(hdr, need);
            && r.1[hdr] == need && rem in r.0 && rem in r.1
            && Adjacent(hdr, need, rem)
            && End(rem, r.1[rem]) == End(hdr, target)
            && r.1[rem] + ALLOC_HEADER_SIZE >= FREE_HEADER_SIZE
            && need + ALLOC_HEADER_SIZE + r.1[rem] == target
            && |r.0| == |s|)
  {
    var hdr, target := s[k], z[s[k]];
    var n := CarveSize(target, need);
    RemoveOrdered(s, z, k, n);
    if n != target {
      CarveSplitRest(s, z, k, n);
    }
  }

  /** The split case: the rest goes on the list after the shortened block has
      come off it. */
  lemma CarveSplitRest(s: seq<Addr>, z: map<Addr, nat>, k: nat, n: nat)
    requires Ordered(s, z) && k < |s| && n + ALLOC_HEADER_SIZE <= z[s[k]]
    ensures var hdr, s1, z1 := s[k], Remove(s, k), z[s[k] := n];
      var rem := Remainder(hdr, n);
      var r := Insert(s1, rem);
      && Ordered(r, z1[rem := z[hdr] - ALLOC_HEADER_SIZE - n])
      && hdr !in r && rem in r
  {
    var hdr, target := s[k], z[s[k]];
    var s1, z1 := Remove(s, k), z[hdr := n];
    var rem, rs := Remainder(hdr, n), target - ALLOC_HEADER_SIZE - n;
    RemoveOrdered(s, z, k, n);
    OrderedDisjoint(s, z, k, rem, rs);
    forall j | 0 <= j < |s1|
      ensures Disjoint(s1[j], z1[s1[j]], rem, rs)
    {
      var j' := if j < k then j else j + 1;
      assert s1[j] == s[j'] && j' != k;
    }
    InsertOrdered(s1, z1, rem, rs);
    InsertAt(s1, rem);
    var r := Insert(s1, rem);
    forall j | 0 <= j < |r|
      ensures r[j] != hdr
    {
      if j != InsertPos(s1, rem) {
        assert r[j] in s1;
      }
    }
  }

  // ---------------------------------------------------------------------------
  // Coalescing

  /** One merge of kma_rm.c:305-328: block k absorbs block k + 1, which is
      unlinked. */
  function Merge(s: seq<Addr>, z: map<Addr, nat>, k: nat): (r: (seq<Addr>, map<Addr, nat>))
    requires k + 1 < |s| && s[k] in z && s[k + 1] in z
  {
    (Remove(s, k + 1), z[s[k] := z[s[k]] + ALLOC_HEADER_SIZE + z[s[k + 1]]])
  }

  /** A merge of two adjacent blocks keeps the list ordered; the merged block
      covers exactly the bytes of both, and the list is one shorter. */
  lemma MergeOrdered(s: seq<Addr>, z: map<Addr, nat>, k: nat)
    requires Ordered(s, z) && k + 1 < |s| && Adjacent(s[k], z[s[k]], s[k + 1])
    ensures var r := Merge(s, z, k);
      && Ordered(r.0, r.1) && |r.0| == |s| - 1 && r.0[k] == s[k]
      && r.1[s[k]] == z[s[k]] + ALLOC_HEADER_SIZE + z[s[k + 1]]
      && End(s[k], r.1[s[k]]) == End(s[k + 1], z[s[k + 1]])
  {
    var r := Merge(s, z, k);
    var s', z' := r.0, r.1;
    forall j | 0 <= j < |s'| && j != k
      ensures s'[j] != s[k]
    {
      if j < k {
        OrderedBelow(s, z, j, k);
      } else {
        OrderedBelow(s, z, k, j + 1);
      }
    }
    forall i, j | 0 <= i < j < |s'|
      ensures EndsBefore(s'[i], z'[s'[i]], s'[j])
    {
      var i' := if i < k + 1 then i else i + 1;
      var j' := if j < k + 1 then j else j + 1;
      if i == k {
        assert EndsBefore(s[k + 1], z[s[k + 1]], s[j']);
      } else {
        assert EndsBefore(s[i'], z[s[i']], s[j']);
      }
    }
  }

  /** The (list, SIZE words, index of the block) that coalesce(hdr) works on. */
  datatype Run = Run(blocks: seq<Addr>, sizes: map<Addr, nat>, at: nat)

  /** The first half of a coalesce pass (kma_rm.c:305-316): when the previous
      block is adjacent, it absorbs block k and the pass goes on from it. */
  function MergePrev(s: seq<Addr>, z: map<Addr, nat>, k: nat): (r: Run)
    requires Ordered(s, z) && k < |s|
    ensures Ordered(r.blocks, r.sizes) && r.at < |r.blocks|
    ensures r == Run(s, z, k) <==> !(k > 0 && Adjacent(s[k - 1], z[s[k - 1]], s[k]))
    ensures r != Run(s, z, k) ==> |r.blocks| == |s| - 1
  {
    if k > 0 && Adjacent(s[k - 1], z[s[k - 1]], s[k]) then
      MergeOrdered(s, z, k - 1);
      var m := Merge(s, z, k - 1);
      Run(m.0, m.1, k - 1)
    else
      Run(s, z, k)
  }

  /** The second half (kma_rm.c:318-328): when the next block is adjacent,
      the block absorbs it. */
  function MergeNext(r: Run): (r': Run)
    requires Ordered(r.blocks, r.sizes) && r.at < |r.blocks|
    ensures Ordered(r'.blocks, r'.sizes) && r'.at == r.at < |r'.blocks|
    ensures r' == r <==> !(r.at + 1 < |r.blocks| && Adjacent(r.blocks[r.at], r.sizes[r.blocks[r.at]], r.blocks[r.at + 1]))
    ensures r' != r ==> |r'.blocks| == |r.blocks| - 1
  {
    var s, z, k := r.blocks, r.sizes, r.at;
    if k + 1 < |s| && Adjacent(s[k], z[s[k]], s[k + 1]) then
      MergeOrdered(s, z, k);
      var m := Merge(s, z, k);
      Run(m.0, m.1, k)
    else
      r
  }

  /** The list has no block adjacent to block k on either side. */
  predicate Isolated(s: seq<Addr>, z: map<Addr, nat>, k: nat)
    requires Ordered(s, z) && k < |s|
  {
    && !(k > 0 && Adjacent(s[k - 1], z[s[k - 1]], s[k]))
    && !(k + 1 < |s| && Adjacent(s[k], z[s[k]], s[k + 1]))
  }

  /** One pass of coalesce: it changes nothing exactly when block k is
      isolated, and otherwise shortens the list. */
  function MergeStep(s: seq<Addr>, z: map<Addr, nat>, k: nat): (r: Run)
    requires Ordered(s, z) && k < |s|
    ensures Ordered(r.blocks, r.sizes) && r.at < |r.blocks|
    ensures r == Run(s, z, k) <==> Isolated(s, z, k)
    ensures r != Run(s, z, k) ==> |r.blocks| < |s|
  {
    MergeNext(MergePrev(s, z, k))
  }

  /** coalesce(hdr) up to the page-release test: merge passes repeat until one
      merges nothing (line 330-331). */
  function Coalesced(s: seq<Addr>, z: map<Addr, nat>, k: nat): (r: Run)
    requires Ordered(s, z) && k < |s|
    ensures Ordered(r.blocks, r.sizes) && r.at < |r.blocks| && Isolated(r.blocks, r.sizes, r.at)
    ensures |r.blocks| <= |s|
    decreases |s|
  {
    var r := MergeStep(s, z, k);
    if r == Run(s, z, k) then r else Coalesced(r.blocks, r.sizes, r.at)
  }

  // ---------------------------------------------------------------------------
  // Bytes on the list

  /** The bytes the free blocks of s occupy, headers included. */
  function Span(s: seq<Addr>, z: map<Addr, nat>): nat
    requires forall j :: 0 <= j < |s| ==> s[j] in z
  {
    if s == [] then 0 else ALLOC_HEADER_SIZE + z[s[0]] + Span(s[1..], z)
  }

  lemma {:induction false} SpanConcat(a: seq<Addr>, b: seq<Addr>, z: map<Addr, nat>)
    requires forall j :: 0 <= j < |a| ==> a[j] in z
    requires forall j :: 0 <= j < |b| ==> b[j] in z
    ensures Span(a + b, z) == Span(a, z) + Span(b, z)
  {
    if a == [] {
      assert a + b == b;
    } else {
      assert (a + b)[1..] == a[1..] + b;
      SpanConcat(a[1..], b, z);
    }
  }

  lemma {:induction false} SpanFrame(s: seq<Addr>, z: map<Addr, nat>, z': map<Addr, nat>)
    requires forall j :: 0 <= j < |s| ==> s[j] in z && s[j] in z' && z'[s[j]] == z[s[j]]
    ensures Span(s, z') == Span(s, z)
  {
    if s != [] {
      SpanFrame(s[1..], z, z');
    }
  }

  /** Span of a list split around its k-th block. */
  lemma SpanAt(s: seq<Addr>, z: map<Addr, nat>, k: nat)
    requires forall j :: 0 <= j < |s| ==> s[j] in z
    requires k < |s|
    ensures Span(s, z) == Span(s[..k], z) + ALLOC_HEADER_SIZE + z[s[k]] + Span(s[k + 1..], z)
  {
    assert s == s[..k] + s[k..];
    SpanConcat(s[..k], s[k..], z);
    assert s[k..][1..] == s[k + 1..];
  }

  /** A merge frees no byte and takes none: the list's span is unchanged. */
  lemma MergeConserves(s: seq<Addr>, z: map<Addr, nat>, k: nat)
    requires Ordered(s, z) && k + 1 < |s| && Adjacent(s[k], z[s[k]], s[k + 1])
    ensures var r := Merge(s, z, k); Span(r.0, r.1) == Span(s, z)
  {
    var r := Merge(s, z, k);
    MergeOrdered(s, z, k);
    var s', z' := r.0, r.1;
    SpanAt(s, z, k + 1);
    SpanAt(s[..k + 1], z, k);
    assert s[..k + 1][..k] == s[..k];
    assert s[..k + 1][k + 1..] == [];
    SpanAt(s', z', k);
    assert s'[..k] == s[..k];
    assert s'[k + 1..] == s[k + 2..];
    forall j | 0 <= j < k
      ensures s[j] != s[k]
    {
      OrderedBelow(s, z, j, k);
    }
    forall j | k + 2 <= j < |s|
      ensures s[j] != s[k]
    {
      OrderedBelow(s, z, k, j);
    }
    SpanFrame(s[..k], z, z');
    SpanFrame(s[k + 2..], z, z');
  }

  lemma SpanRemove(s: seq<Addr>, z: map<Addr, nat>, k: nat)
    requires forall j :: 0 <= j < |s| ==> s[j] in z
    requires k < |s|
    ensures Span(Remove(s, k), z) + ALLOC_HEADER_SIZE + z[s[k]] == Span(s, z)
  {
    SpanAt(s, z, k);
    assert Remove(s, k) == s[..k] + s[k + 1..];
    SpanConcat(s[..k], s[k + 1..], z);
  }

  lemma SpanInsert(s: seq<Addr>, z: map<Addr, nat>, a: Addr)
    requires forall j :: 0 <= j < |s| ==> s[j] in z
    requires a in z
    ensures Span(Insert(s, a), z) == Span(s, z) + ALLOC_HEADER_SIZE + z[a]
  {
    var p := InsertPos(s, a);
    var r := Insert(s, a);
    InsertAt(s, a);
    SpanAt(r, z, p);
    assert r[..p] == s[..p] && r[p + 1..] == s[p..];
    assert s == s[..p] + s[p..];
    SpanConcat(s[..p], s[p..], z);
  }

  /** Carving takes exactly the bytes of the allocated block off the list. */
  lemma CarveConserves(s: seq<Addr>, z: map<Addr, nat>, k: nat, need: nat)
    requires Ordered(s, z) && k < |s| && need <= z[s[k]]
    ensures var r := Carve(s, z, k, need);
      && (forall j :: 0 <= j < |r.0| ==> r.0[j] in r.1)
      && Span(r.0, r.1) + ALLOC_HEADER_SIZE + r.1[s[k]] == Span(s, z)
  {
    var hdr, target := s[k], z[s[k]];
    var n := CarveSize(target, need);
    var s1, z1 := Remove(s, k), z[hdr := n];
    CarveSplits(s, z, k, need);
    RemoveOrdered(s, z, k, n);
    SpanRemove(s, z, k);
    SpanFrame(s1, z, z1);
    if n != target {
      var rem, rs := Remainder(hdr, n), target - ALLOC_HEADER_SIZE - n;
      var z2 := z1[rem := rs];
      assert rem !in s1 by {
        OrderedDisjoint(s, z, k, rem, rs);
        forall j | 0 <= j < |s1|
          ensures s1[j] != rem
        {
          var j' := if j < k then j else j + 1;
          assert s1[j] == s[j'] && Disjoint(s[j'], z[s[j']], rem, rs);
        }
      }
      SpanFrame(s1, z1, z2);
      SpanInsert(s1, z2, rem);
    }
  }

  // ---------------------------------------------------------------------------
  // kma_malloc on the list

  /** kma_malloc(size) on the free list (s, z), for a raised request `need`:
      first fit, or else the whole-page block of a spare page at header `spare`
      inserted first; then carving. The result is the allocated header and the
      new list. */
  function Malloc(s: seq<Addr>, z: map<Addr, nat>, need: nat, spare: Addr): (r: (Addr, seq<Addr>, map<Addr, nat>))
    requires forall j :: 0 <= j < |s| ==> s[j] in z
    requires need <= PAGE_BLOCK_SIZE
  {
    var k := FirstFit(s, z, need);
    if k < |s| then
      var c := Carve(s, z, k, need);
      (s[k], c.0, c.1)
    else
      var s1, z1 := Insert(s, spare), z[spare := PAGE_BLOCK_SIZE];
      InsertAt(s, spare);
      var c := Carve(s1, z1, InsertPos(s, spare), need);
      (spare, c.0, c.1)
  }

  /** The blocks of s lie in pages other than p. */
  predicate AvoidsPage(s: seq<Addr>, p: nat)
  {
    forall j :: 0 <= j < |s| ==> s[j].page != p
  }

  /** CarveSplits and CarveConserves together, about the header carved. */
  lemma CarveFacts(s: seq<Addr>, z: map<Addr, nat>, k: nat, need: nat)
    requires Ordered(s, z) && k < |s| && need <= z[s[k]]
    ensures var c := Carve(s, z, k, need);
      && Ordered(c.0, c.1) && s[k] !in c.0 && s[k] in c.1 && c.1[s[k]] >= need
      && Span(c.0, c.1) + ALLOC_HEADER_SIZE + c.1[s[k]] == Span(s, z)
  {
    CarveSplits(s, z, k, need);
    CarveConserves(s, z, k, need);
  }

  /** kma_malloc when a free block is large enough: it carves the first one,
      which is the lowest-address one large enough. */
  lemma MallocFits(s: seq<Addr>, z: map<Addr, nat>, need: nat, spare: Addr)
    requires Ordered(s, z) && need <= PAGE_BLOCK_SIZE && FirstFit(s, z, need) < |s|
    ensures var r := Malloc(s, z, need, spare); var k := FirstFit(s, z, need);
      && Ordered(r.1, r.2) && r.0 !in r.1 && r.0 in r.2 && r.2[r.0] >= need
      && r.0 == s[k] && (forall j :: 0 <= j < |s| && z[s[j]] >= need ==> j == k || Below(r.0, s[j]))
      && Span(r.1, r.2) + ALLOC_HEADER_SIZE + r.2[r.0] == Span(s, z)
  {
    var k := FirstFit(s, z, need);
    FirstFitIsLowest(s, z, need);
    CarveFacts(s, z, k, need);
  }

  /** kma_malloc when no free block is large enough: it carves the whole-page
      block of the spare page, whose bytes are new to the list. */
  lemma MallocSpare(s: seq<Addr>, z: map<Addr, nat>, need: nat, spare: Addr)
    requires Ordered(s, z) && need <= PAGE_BLOCK_SIZE && FirstFit(s, z, need) == |s|
    requires spare.off == CONTROL_BLOCK_SIZE && AvoidsPage(s, spare.page)
    ensures var r := Malloc(s, z, need, spare);
      && Ordered(r.1, r.2) && r.0 !in r.1 && r.0 in r.2 && r.2[r.0] >= need
      && r.0 == spare && (forall j :: 0 <= j < |s| ==> z[s[j]] < need)
      && Span(r.1, r.2) + ALLOC_HEADER_SIZE + r.2[r.0] == Span(s, z) + ALLOC_HEADER_SIZE + PAGE_BLOCK_SIZE
  {
    var s1, z1 := Insert(s, spare), z[spare := PAGE_BLOCK_SIZE];
    var p := InsertPos(s, spare);
    forall j | 0 <= j < |s|
      ensures Disjoint(s[j], z[s[j]], spare, PAGE_BLOCK_SIZE)
    {
      assert s[j].page != spare.page;
    }
    InsertOrdered(s, z, spare, PAGE_BLOCK_SIZE);
    InsertAt(s, spare);
    CarveFacts(s1, z1, p, need);
    SpanFrame(s, z, z1);
    SpanInsert(s, z1, spare);
  }

  /** What kma_malloc promises on the list: the block handed out is the
      lowest-address free block large enough, or, when there is none, the
      whole-page block of the spare page; it holds at least the request, is no
      longer on the list, and the list stays ordered. Every byte taken off the
      list is in the block handed out, and no other byte moves. */
  lemma MallocFacts(s: seq<Addr>, z: map<Addr, nat>, need: nat, spare: Addr)
    requires Ordered(s, z) && need <= PAGE_BLOCK_SIZE
    requires spare.off == CONTROL_BLOCK_SIZE && AvoidsPage(s, spare.page)
    ensures var r := Malloc(s, z, need, spare); var k := FirstFit(s, z, need);
      && Ordered(r.1, r.2) && r.0 !in r.1 && r.0 in r.2 && r.2[r.0] >= need
      && (k < |s| ==> r.0 == s[k] && forall j :: 0 <= j < |s| && z[s[j]] >= need ==> j == k || Below(r.0, s[j]))
      && (k == |s| ==> r.0 == spare && forall j :: 0 <= j < |s| ==> z[s[j]] < need)
      && Span(r.1, r.2) + ALLOC_HEADER_SIZE + r.2[r.0] ==
           Span(s, z) + (if k < |s| then 0 else ALLOC_HEADER_SIZE + PAGE_BLOCK_SIZE)
  {
    if FirstFit(s, z, need) < |s| {
      MallocFits(s, z, need, spare);
    } else {
      MallocSpare(s, z, need, spare);
    }
  }

  // ---------------------------------------------------------------------------
  // Page release (kma_rm.c:333-361)

  /** Every block lies inside a page of `pages`, after its control block, with
      room for a free header. */
  predicate Held(s: seq<Addr>, z: map<Addr, nat>, pages: set<nat>)
  {
    forall k :: 0 <= k < |s| ==> s[k] in z && s[k].page in pages && InPage(s[k], z[s[k]]) && z[s[k]] >= MIN_REQUEST
  }

  lemma HeldRemove(s: seq<Addr>, z: map<Addr, nat>, pages: set<nat>, k: nat, n: nat)
    requires Held(s, z, pages) && k < |s| && s[k] !in Remove(s, k)
    ensures Held(Remove(s, k), z[s[k] := n], pages)
  {
  }

  lemma HeldInsert(s: seq<Addr>, z: map<Addr, nat>, pages: set<nat>, a: Addr, n: nat)
    requires Held(s, z, pages) && a !in s
    requires a.page in pages && InPage(a, n) && n >= MIN_REQUEST
    ensures Held(Insert(s, a), z[a := n], pages)
  {
    InsertAt(s, a);
  }

  /** A merge keeps every block in its page: the merged block ends where the
      absorbed one ended. */
  lemma HeldMerge(s: seq<Addr>, z: map<Addr, nat>, pages: set<nat>, k: nat)
    requires Ordered(s, z) && Held(s, z, pages) && k + 1 < |s| && Adjacent(s[k], z[s[k]], s[k + 1])
    ensures var m := Merge(s, z, k); Held(m.0, m.1, pages)
  {
    var m := Merge(s, z, k);
    MergeOrdered(s, z, k);
    assert InPage(s[k + 1], z[s[k + 1]]);
    forall j | 0 <= j < |m.0|
      ensures m.0[j] in m.1 && m.0[j].page in pages && InPage(m.0[j], m.1[m.0[j]]) && m.1[m.0[j]] >= MIN_REQUEST
    {
      if j != k {
        var j' := if j < k then j else j + 1;
        assert m.0[j] == s[j'];
        if j < k {
          OrderedBelow(s, z, j, k);
        } else {
          OrderedBelow(s, z, k, j');
        }
      }
    }
  }

  lemma {:induction false} HeldCoalesced(s: seq<Addr>, z: map<Addr, nat>, pages: set<nat>, k: nat)
    requires Ordered(s, z) && Held(s, z, pages) && k < |s|
    ensures var r := Coalesced(s, z, k); Held(r.blocks, r.sizes, pages)
    decreases |s|
  {
    var r1 := MergePrev(s, z, k);
    if r1 != Run(s, z, k) {
      HeldMerge(s, z, pages, k - 1);
    }
    var r := MergeStep(s, z, k);
    if r != r1 {
      HeldMerge(r1.blocks, r1.sizes, pages, r1.at);
    }
    if r != Run(s, z, k) {
      HeldCoalesced(r.blocks, r.sizes, pages, r.at);
    }
  }

  /** Coalescing neither frees nor takes a byte. */
  lemma {:induction false} CoalescedConserves(s: seq<Addr>, z: map<Addr, nat>, k: nat)
    requires Ordered(s, z) && k < |s|
    ensures var r := Coalesced(s, z, k); Span(r.blocks, r.sizes) == Span(s, z)
    decreases |s|
  {
    var r1 := MergePrev(s, z, k);
    if r1 != Run(s, z, k) {
      MergeConserves(s, z, k - 1);
    }
    var r := MergeStep(s, z, k);
    if r != r1 {
      MergeConserves(r1.blocks, r1.sizes, r1.at);
    }
    if r != Run(s, z, k) {
      CoalescedConserves(r.blocks, r.sizes, r.at);
    }
  }

  // ---------------------------------------------------------------------------
  // Page release (kma_rm.c:333-361)

  /** The allocator's state seen through the free list: the root page, the
      list, the SIZE words and the pages it holds. */
  datatype Heap = Heap(root: Option<nat>, blocks: seq<Addr>, sizes: map<Addr, nat>, pages: set<nat>)

  /** The list invariant of the allocator: the root page is held, there is no
      free block without one, and the list is ordered and inside held pages. */
  predicate Sound(h: Heap)
  {
    && (h.root.Some? ==> h.root.value in h.pages)
    && (h.root.None? ==> h.blocks == [])
    && Ordered(h.blocks, h.sizes)
    && Held(h.blocks, h.sizes, h.pages)
  }

  /** Taking a block off the list keeps the invariant. */
  lemma RemoveSound(h: Heap, k: nat)
    requires Sound(h) && k < |h.blocks|
    ensures Sound(h.(blocks := Remove(h.blocks, k)))
  {
    RemoveOrdered(h.blocks, h.sizes, k, h.sizes[h.blocks[k]]);
    assert h.sizes[h.blocks[k] := h.sizes[h.blocks[k]]] == h.sizes;
  }

  /** A block (a, n) can go on the list (s, z): inside a page of `pages`, with
      room for a free header, and sharing no byte with a block of the list. */
  predicate Room(s: seq<Addr>, z: map<Addr, nat>, pages: set<nat>, a: Addr, n: nat)
  {
    && a.page in pages && InPage(a, n) && n >= MIN_REQUEST
    && forall k :: 0 <= k < |s| ==> s[k] in z && Disjoint(s[k], z[s[k]], a, n)
  }

  /** Putting a block that has room on the list keeps the invariant; the block
      was not on it. */
  lemma InsertSound(h: Heap, a: Addr, n: nat)
    requires Sound(h) && h.root.Some? && Room(h.blocks, h.sizes, h.pages, a, n)
    ensures a !in h.blocks
    ensures Sound(h.(blocks := Insert(h.blocks, a), sizes := h.sizes[a := n]))
  {
    forall k | 0 <= k < |h.blocks|
      ensures h.blocks[k] != a
    {
      assert Disjoint(h.blocks[k], h.sizes[h.blocks[k]], a, n);
    }
    InsertOrdered(h.blocks, h.sizes, a, n);
    HeldInsert(h.blocks, h.sizes, h.pages, a, n);
  }

  /** Taking a block off the list keeps the invariant, whatever SIZE the
      block is then given. */
  lemma DetachSound(h: Heap, k: nat, n: nat)
    requires Sound(h) && k < |h.blocks|
    ensures Sound(h.(blocks := Remove(h.blocks, k), sizes := h.sizes[h.blocks[k] := n]))
  {
    RemoveOrdered(h.blocks, h.sizes, k, n);
    HeldRemove(h.blocks, h.sizes, h.pages, k, n);
  }

  /** Carving keeps the invariant at each of its steps: once the block is off
      the list with its new SIZE, and the rest, when split off, has room to go
      back on. */
  lemma CarveSound(h: Heap, k: nat, need: nat)
    requires Sound(h) && k < |h.blocks| && MIN_REQUEST <= need <= h.sizes[h.blocks[k]]
    ensures var hdr, target := h.blocks[k], h.sizes[h.blocks[k]];
      var n := CarveSize(target, need);
      var h1 := h.(blocks := Remove(h.blocks, k), sizes := h.sizes[hdr := n]);
      && Sound(h1)
      && (n != target ==> Room(h1.blocks, h1.sizes, h1.pages, Remainder(hdr, n), target - ALLOC_HEADER_SIZE - n))
  {
    var s, z := h.blocks, h.sizes;
    var hdr, target := s[k], z[s[k]];
    var n := CarveSize(target, need);
    RemoveOrdered(s, z, k, n);
    HeldRemove(s, z, h.pages, k, n);
    if n != target {
      var s1, z1 := Remove(s, k), z[hdr := n];
      var rem, rs := Remainder(hdr, n), target - ALLOC_HEADER_SIZE - n;
      assert InPage(hdr, target);
      OrderedDisjoint(s, z, k, rem, rs);
      forall j | 0 <= j < |s1|
        ensures s1[j] in z1 && Disjoint(s1[j], z1[s1[j]], rem, rs)
      {
        var j' := if j < k then j else j + 1;
        assert s1[j] == s[j'];
      }
    }
  }

  /** The merge as the code writes it: one SIZE word, holding the sum. */
  lemma MergeWrites(s: seq<Addr>, z: map<Addr, nat>, k: nat, v: nat)
    requires k + 1 < |s| && s[k] in z && s[k + 1] in z
    requires v == z[s[k]] + ALLOC_HEADER_SIZE + z[s[k + 1]]
    ensures Merge(s, z, k) == (Remove(s, k + 1), z[s[k] := v])
  {
  }

  /** A merge of adjacent blocks keeps the invariant. */
  lemma MergeSound(h: Heap, k: nat)
    requires Sound(h) && k + 1 < |h.blocks| && Adjacent(h.blocks[k], h.sizes[h.blocks[k]], h.blocks[k + 1])
    ensures var m := Merge(h.blocks, h.sizes, k); Sound(h.(blocks := m.0, sizes := m.1))
  {
    MergeOrdered(h.blocks, h.sizes, k);
    HeldMerge(h.blocks, h.sizes, h.pages, k);
  }

  /** The end of coalesce: when block k spans its whole page, it is taken off
      the list and its page given back; when that page was the root, the root
      moves to the page of the list's first block, or becomes NULL when the list
      is empty. */
  function ReleaseWhole(h: Heap, k: nat): (r: Heap)
    requires h.root.Some? && k < |h.blocks| && h.blocks[k] in h.sizes
  {
    var hdr := h.blocks[k];
    if h.sizes[hdr] != PAGE_BLOCK_SIZE then h
    else
      var rest := Remove(h.blocks, k);
      var root := if hdr.page != h.root.value then h.root else if rest == [] then None else Some(rest[0].page);
      Heap(root, rest, h.sizes, h.pages - {hdr.page})
  }

  /** A block that spans its page is the only block of an ordered list in that
      page. */
  lemma WholePageAlone(s: seq<Addr>, z: map<Addr, nat>, pages: set<nat>, k: nat)
    requires Ordered(s, z) && Held(s, z, pages) && k < |s| && z[s[k]] == PAGE_BLOCK_SIZE
    ensures forall j :: 0 <= j < |s| && j != k ==> s[j].page != s[k].page
  {
    forall j | 0 <= j < |s| && j != k
      ensures s[j].page != s[k].page
    {
      assert InPage(s[j], z[s[j]]) && InPage(s[k], z[s[k]]);
      if j < k {
        assert EndsBefore(s[j], z[s[j]], s[k]);
      } else {
        assert EndsBefore(s[k], z[s[k]], s[j]);
      }
    }
  }

  /** Releasing keeps the invariant; it gives back exactly the page of a block
      that spans it, and every other block stays, in pages still held. */
  lemma ReleaseWholeFacts(h: Heap, k: nat)
    requires Sound(h) && h.root.Some? && k < |h.blocks|
    ensures var r := ReleaseWhole(h, k); var hdr := h.blocks[k];
      && Sound(r)
      && (h.sizes[hdr] == PAGE_BLOCK_SIZE <==> r != h)
      && (r != h ==> r.blocks == Remove(h.blocks, k) && r.pages == h.pages - {hdr.page} && AvoidsPage(r.blocks, hdr.page))
  {
    var hdr := h.blocks[k];
    if h.sizes[hdr] == PAGE_BLOCK_SIZE {
      RemoveOrdered(h.blocks, h.sizes, k, h.sizes[hdr]);
      assert h.sizes[hdr := h.sizes[hdr]] == h.sizes;
      WholePageAlone(h.blocks, h.sizes, h.pages, k);
      var rest := Remove(h.blocks, k);
      assert |rest| < |h.blocks|;
    }
  }
}
