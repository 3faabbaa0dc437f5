/** The resource-map allocator of kma_rm.c: one doubly linked free list, kept
    in address order across all pages, whose head lives in the control block of
    the root page. Each free block starts with its SIZE word, then PREV and NEXT;
    an allocated block keeps only its SIZE word.

    The class holds the words the code reads and writes: the list head, and the
    SIZE, PREV and NEXT words by header address. The ghost sequence `blocks` is
    the free list they encode; `Valid` ties the two together. */
module ResourceMap {
  import opened Wrappers
  import opened Pages
  import opened FreeList
  import opened FreeLinks

  class Allocator {
    /** The page source behind get_page and free_page. */
    const src: PageSource
    /** root_page: the frame whose control block holds the list head. */
    var root: Option<nat>
    /** CONTROL_BLOCK_FIRST_NODE(root_page->ptr). */
    var head: Option<Addr>
    /** SIZE words, by header. */
    var sizes: map<Addr, nat>
    /** PREV words, by header. */
    var prevs: map<Addr, Option<Addr>>
    /** NEXT words, by header. */
    var nexts: map<Addr, Option<Addr>>
    /** The free list, in list order. */
    ghost var blocks: seq<Addr>

    /** The head and link words, as a value. */
    ghost function Linkage(): Links
      reads this
    {
      Links(head, prevs, nexts)
    }

    /** The state as the free list sees it. */
    ghost function State(): Heap
      reads this, src
    {
      Heap(root, blocks, sizes, src.owned)
    }

    ghost predicate Valid()
      reads this, src
    {
      && src.Valid()
      && Sound(State())
      && Linked(Linkage(), blocks)
    }

    /** A block (a, n) can go on the list. */
    ghost predicate Fits(a: Addr, n: nat)
      reads this, src
    {
      Room(blocks, sizes, src.owned, a, n)
    }

    /** Before the first kma_malloc: no root page and an empty list. */
    constructor (pages: PageSource)
      requires pages.Valid()
      ensures Valid() && src == pages && root.None? && blocks == []
    {
      src := pages;
      root := None;
      head := None;
      sizes := map[];
      prevs := map[];
      nexts := map[];
      blocks := [];
    }

    /** kma_rm.c:173-185: the first kma_malloc takes the root page and makes
        the rest of it one free block. */
    method InitRoot()
      requires Valid() && root.None?
      modifies this, src
      ensures Valid() && root.Some?
      ensures root.value !in old(src.owned) && src.owned == old(src.owned) + {root.value}
      ensures blocks == [Addr(root.value, CONTROL_BLOCK_SIZE)]
      ensures sizes == old(sizes)[Addr(root.value, CONTROL_BLOCK_SIZE) := PAGE_BLOCK_SIZE]
    {
      var p := src.GetPage();
      root := Some(p);
      var hdr := Addr(p, CONTROL_BLOCK_SIZE);
      sizes := sizes[hdr := PAGESIZE - CONTROL_BLOCK_SIZE - ALLOC_HEADER_SIZE];
      prevs := prevs[hdr := None];
      nexts := nexts[hdr := None];
      head := Some(hdr);
      blocks := [hdr];
    }

    /** kma_rm.c:197-202: the first-fit walk. */
    method FindFit(need: nat) returns (node: Option<Addr>, ghost k: nat)
      requires Valid()
      ensures k == FirstFit(blocks, sizes, need) && node == After(blocks, k)
    {
      node := head;
      k := 0;
      while node.Some?
        invariant k <= |blocks| && node == After(blocks, k)
        invariant forall j :: 0 <= j < k ==> sizes[blocks[j]] < need
        decreases |blocks| - k
      {
        if sizes[node.value] >= need {
          break;
        }
        node := nexts[node.value];
        k := k + 1;
      }
      FirstFitIs(blocks, sizes, need, k);
    }

    /** Take block k off the list: kma_rm.c:230-241, and the same relinking
        at lines 309-312, 322-325 and 342-349. */
    method UnlinkBlock(node: Addr, ghost k: nat)
      requires Valid() && k < |blocks| && blocks[k] == node
      modifies this
      ensures Valid() && root == old(root) && sizes == old(sizes)
      ensures blocks == Remove(old(blocks), k) && Linkage() == Unlink(old(Linkage()), node)
    {
      OrderedDistinct(blocks, sizes);
      UnlinkRemoves(Linkage(), blocks, k);
      RemoveSound(State(), k);
      ghost var l := Unlink(Linkage(), node);
      var prev, next := prevs[node], nexts[node];
      if prev.Some? {
        nexts := nexts[prev.value := next];
      } else {
        head := next;
      }
      if next.Some? {
        prevs := prevs[next.value := prev];
      }
      assert Linkage() == l;
      blocks := Remove(blocks, k);
    }

    /** add_and_insert_free_header (kma_rm.c:267-296): write the SIZE word and
        link the block in at the first block not below it. */
    method AddAndInsertFreeHeader(target: Addr, size: nat)
      requires Valid() && root.Some? && Fits(target, size)
      modifies this
      ensures Valid() && root == old(root)
      ensures blocks == Insert(old(blocks), target) && sizes == old(sizes)[target := size]
      ensures var p := InsertPos(old(blocks), target);
        Linkage() == Link(old(Linkage()), target, Before(old(blocks), p), After(old(blocks), p))
    {
      InsertSound(State(), target, size);
      OrderedDistinct(blocks, sizes);
      LinkInserts(Linkage(), blocks, target);
      ghost var p := InsertPos(blocks, target);
      ghost var l := Link(Linkage(), target, Before(blocks, p), After(blocks, p));
      sizes := sizes[target := size];
      var node := head;
      if node.None? {
        head := Some(target);
        prevs := prevs[target := None];
        nexts := nexts[target := None];
      } else {
        var prev: Option<Addr> := None;
        ghost var i := 0;
        while node.Some? && Below(node.value, target)
          invariant i <= |blocks| && node == After(blocks, i) && prev == Before(blocks, i)
          invariant forall j :: 0 <= j < i ==> Below(blocks[j], target)
          decreases |blocks| - i
        {
          prev := node;
          node := nexts[node.value];
          i := i + 1;
        }
        InsertPosIs(blocks, target, i);
        if node.Some? {
          prevs := prevs[node.value := Some(target)];
        }
        if prev.None? {
          head := Some(target);
        } else {
          nexts := nexts[prev.value := Some(target)];
        }
        nexts := nexts[target := node];
        prevs := prevs[target := prev];
      }
      assert Linkage() == l;
      blocks := Insert(blocks, target);
    }

    /** kma_rm.c:206-217: a new page, made one free block after its control
        block. */
    method AddPage() returns (node: Addr)
      requires Valid() && root.Some?
      modifies this, src
      ensures Valid() && root == old(root)
      ensures node.off == CONTROL_BLOCK_SIZE && node.page !in old(src.owned) && src.owned == old(src.owned) + {node.page}
      ensures blocks == Insert(old(blocks), node) && sizes == old(sizes)[node := PAGE_BLOCK_SIZE]
    {
      var p := src.GetPage();
      node := Addr(p, CONTROL_BLOCK_SIZE);
      forall k | 0 <= k < |blocks|
        ensures Disjoint(blocks[k], sizes[blocks[k]], node, PAGE_BLOCK_SIZE)
      {
        assert blocks[k].page in old(src.owned);
      }
      AddAndInsertFreeHeader(node, PAGESIZE - CONTROL_BLOCK_SIZE - ALLOC_HEADER_SIZE);
    }

    /** kma_rm.c:229-244: block k gets SIZE `size`, no more than it had and
        at least MIN_REQUEST, and is taken off the list. */
    method Detach(node: Addr, ghost k: nat, size: nat)
      requires Valid() && k < |blocks| && blocks[k] == node
      requires MIN_REQUEST <= size <= sizes[node]
      modifies this
      ensures Valid() && root == old(root)
      ensures blocks == Remove(old(blocks), k) && sizes == old(sizes)[node := size]
    {
      DetachSound(State(), k, size);
      ghost var s0: seq<Addr>, z0: map<Addr, nat> := blocks, sizes;
      UnlinkBlock(node, k);
      ghost var l := Linkage();
      sizes := sizes[node := size];
      assert Linkage() == l;
      assert State() == old(State()).(blocks := Remove(s0, k), sizes := z0[node := size]);
    }

    /** kma_rm.c:219-246: hand out block k, keeping only `need` bytes of it
        when the rest can hold a free header, and putting that rest back on the
        list. */
    method TakeBlock(node: Addr, ghost k: nat, need: nat) returns (ptr: Addr)
      requires Valid() && root.Some? && k < |blocks| && blocks[k] == node
      requires MIN_REQUEST <= need <= sizes[node]
      modifies this
      ensures Valid() && root == old(root) && ptr == Payload(node)
      ensures (blocks, sizes) == Carve(old(blocks), old(sizes), k, need)
    {
      var targetSize: nat := sizes[node];
      ptr := Payload(node);
      var size: nat := need;
      if targetSize - size < FREE_HEADER_SIZE {
        size := targetSize;
      }
      CarveSound(State(), k, need);
      ghost var s0: seq<Addr>, z0: map<Addr, nat> := blocks, sizes;
      Detach(node, k, size);
      if size != targetSize {
        var rest: nat := targetSize - ALLOC_HEADER_SIZE - size;
        CarveWrites(s0, z0, k, node, targetSize, need, size, rest);
        AddAndInsertFreeHeader(Remainder(node, size), rest);
      } else {
        CarveWrites(s0, z0, k, node, targetSize, need, size, 0);
      }
    }

    /** kma_malloc (kma_rm.c:167-251), for requests a whole-page block can
        hold. On the first call the root page is taken first; the request is
        raised to MIN_REQUEST, the first block large enough is found, or a new
        page added when there is none, and that block is carved. */
    method KmaMalloc(size: nat) returns (ptr: Addr)
      requires Valid() && size <= PAGE_BLOCK_SIZE
      modifies this, src
      ensures Valid() && root.Some? && (old(root).Some? ==> root == old(root))
      ensures old(root).None? ==> root.value !in old(src.owned)
      ensures ptr.off >= ALLOC_HEADER_SIZE
      ensures var h0 := if old(root).Some? then old(State())
                        else var a := Addr(root.value, CONTROL_BLOCK_SIZE);
                          Heap(root, [a], old(sizes)[a := PAGE_BLOCK_SIZE], old(src.owned) + {root.value});
        var need := Request(size); var hdr := Header(ptr);
        && (Header(ptr), blocks, sizes) == Malloc(h0.blocks, h0.sizes, need, hdr)
        && (FirstFit(h0.blocks, h0.sizes, need) < |h0.blocks| ==> src.owned == h0.pages)
        && (FirstFit(h0.blocks, h0.sizes, need) == |h0.blocks| ==>
              hdr.off == CONTROL_BLOCK_SIZE && hdr.page !in h0.pages && src.owned == h0.pages + {hdr.page})
    {
      if root.None? {
        InitRoot();
      }
      ghost var s0: seq<Addr>, z0: map<Addr, nat> := blocks, sizes;
      var need: nat := size;
      if need < FREE_HEADER_SIZE - ALLOC_HEADER_SIZE {
        need := FREE_HEADER_SIZE - ALLOC_HEADER_SIZE;
      }
      var node, k := FindFit(need);
      if node.None? {
        var n := AddPage();
        node := Some(n);
        k := InsertPos(s0, n);
        InsertAt(s0, n);
      }
      ptr := TakeBlock(node.value, k, need);
      HeaderOfPayload(node.value);
    }

    /** The end of coalesce (kma_rm.c:333-361): a block spanning its whole page
        is taken off the list and the page given back; when it was the root
        page, the root moves to the page of the list's new first block, or to
        NULL when the list is empty. */
    method ReleaseIfWhole(hdr: Addr, ghost k: nat)
      requires Valid() && root.Some? && k < |blocks| && blocks[k] == hdr
      modifies this, src
      ensures Valid() && State() == ReleaseWhole(old(State()), k)
      ensures old(sizes[hdr]) == PAGE_BLOCK_SIZE ==> (root, Linkage()) == Release(old(root.value), old(Linkage()), hdr)
      ensures old(sizes[hdr]) != PAGE_BLOCK_SIZE ==> Linkage() == old(Linkage())
    {
      ReleaseWholeFacts(State(), k);
      if sizes[hdr] == PAGESIZE - CONTROL_BLOCK_SIZE - ALLOC_HEADER_SIZE {
        var r := root.value;
        UnlinkBlock(hdr, k);
        if hdr.page == r {
          src.FreePage(r);
          if head.Some? {
            root := Some(head.value.page);
          } else {
            root := None;
          }
        } else {
          src.FreePage(hdr.page);
        }
      }
    }

    /** kma_rm.c:305-316: when the previous block ends where block k begins,
        in the same page, it absorbs block k, which is unlinked; coalescing
        goes on from it. */
    method MergeWithPrev(hdr: Addr, ghost k: nat) returns (h: Addr, ghost i: nat, merged: bool)
      requires Valid() && k < |blocks| && blocks[k] == hdr
      modifies this
      ensures Valid() && root == old(root)
      ensures Run(blocks, sizes, i) == MergePrev(old(blocks), old(sizes), k) && i < |blocks| && blocks[i] == h
      ensures merged <==> Run(blocks, sizes, i) != Run(old(blocks), old(sizes), k)
    {
      h, i, merged := hdr, k, false;
      var prev := prevs[hdr];
      if prev.Some? && BaseAddr(prev.value) == BaseAddr(hdr) && Offset(prev.value, ALLOC_HEADER_SIZE + sizes[prev.value]) == hdr {
        var size: nat := sizes[hdr] + sizes[prev.value] + ALLOC_HEADER_SIZE;
        assert prev.value == blocks[k - 1];
        ghost var m := Merge(blocks, sizes, k - 1);
        MergeWrites(blocks, sizes, k - 1, size);
        MergeSound(State(), k - 1);
        UnlinkBlock(hdr, k);
        ghost var l := Linkage();
        sizes := sizes[prev.value := size];
        assert Linkage() == l && sizes == m.1 && blocks == m.0;
        h, i, merged := prev.value, k - 1, true;
      }
    }

    /** kma_rm.c:318-328: when the next block, read before the first merge,
        begins where block k ends, in the same page, block k absorbs it and it
        is unlinked. */
    method MergeWithNext(hdr: Addr, ghost k: nat, next: Option<Addr>) returns (merged: bool)
      requires Valid() && k < |blocks| && blocks[k] == hdr && next == After(blocks, k + 1)
      modifies this
      ensures Valid() && root == old(root)
      ensures Run(blocks, sizes, k) == MergeNext(Run(old(blocks), old(sizes), k)) && k < |blocks| && blocks[k] == hdr
      ensures merged <==> Run(blocks, sizes, k) != Run(old(blocks), old(sizes), k)
    {
      merged := false;
      ghost var r := Run(blocks, sizes, k);
      if next.Some? && BaseAddr(hdr) == BaseAddr(next.value) && Offset(hdr, ALLOC_HEADER_SIZE + sizes[hdr]) == next.value {
        var size: nat := sizes[hdr] + sizes[next.value] + ALLOC_HEADER_SIZE;
        ghost var m := Merge(blocks, sizes, k);
        assert MergeNext(r) == Run(m.0, m.1, k);
        MergeWrites(blocks, sizes, k, size);
        MergeSound(State(), k);
        UnlinkBlock(next.value, k + 1);
        ghost var l := Linkage();
        sizes := sizes[hdr := size];
        assert Linkage() == l;
        assert State() == old(State()).(blocks := m.0, sizes := m.1);
        merged := true;
      } else {
        assert MergeNext(r) == r;
      }
    }

    /** coalesce (kma_rm.c:298-362): merge block k with an adjacent previous
        block, then the result with an adjacent next block; repeat while a
        pass merged something, then release the page if one block spans it. */
    method Coalesce(hdr: Addr, ghost k: nat)
      requires Valid() && root.Some? && k < |blocks| && blocks[k] == hdr
      modifies this, src
      ensures Valid()
      ensures var r := Coalesced(old(blocks), old(sizes), k);
        State() == ReleaseWhole(Heap(old(root), r.blocks, r.sizes, old(src.owned)), r.at)
      decreases |blocks|
    {
      var next := nexts[hdr];
      var h, i, mergedPrev := MergeWithPrev(hdr, k);
      var mergedNext := MergeWithNext(h, i, next);
      var again := mergedPrev || mergedNext;
      assert Run(blocks, sizes, i) == MergeStep(old(blocks), old(sizes), k);
      if again {
        Coalesce(h, i);
      } else {
        ReleaseIfWhole(h, i);
      }
    }

    /** kma_free (kma_rm.c:253-265): put the block back on the list and
        coalesce it. The caller passes a block it was handed and has not freed,
        of at most the size it holds (the assertion at line 258). */
    method KmaFree(ptr: Addr, size: nat)
      requires Valid() && root.Some? && ptr.off >= ALLOC_HEADER_SIZE
      requires Header(ptr) in sizes && size <= sizes[Header(ptr)] && Fits(Header(ptr), sizes[Header(ptr)])
      modifies this, src
      ensures Valid()
      ensures var hdr := Header(ptr); var s1 := Insert(old(blocks), hdr);
        && Ordered(s1, old(sizes))
        && var r := Coalesced(s1, old(sizes), InsertPos(old(blocks), hdr));
        State() == ReleaseWhole(Heap(old(root), r.blocks, r.sizes, old(src.owned)), r.at)
    {
      var hdr := Header(ptr);
      AddAndInsertFreeHeader(hdr, sizes[hdr]);
      assert old(sizes)[hdr := old(sizes)[hdr]] == old(sizes);
      InsertAt(old(blocks), hdr);
      Coalesce(hdr, InsertPos(old(blocks), hdr));
    }
  }
}
