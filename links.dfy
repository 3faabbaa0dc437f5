/** The PREV and NEXT words of the resource-map allocator's free headers
    (kma_rm.c:61-62) and the list head kept in the root page's control block
    (kma_rm.c:55): the doubly linked encoding of the free list, the pointer
    splices that insert and unlink a block, and the root-page handover of
    coalesce (kma_rm.c:342-357). */
module FreeLinks {
  import opened Wrappers
  import opened Pages
  import opened FreeList

  /** CONTROL_BLOCK_FIRST_NODE of the root page, and the PREV and NEXT word of
      every header they have been written for. */
  datatype Links = Links(head: Option<Addr>, prevs: map<Addr, Option<Addr>>, nexts: map<Addr, Option<Addr>>)

  predicate Distinct(s: seq<Addr>)
  {
    forall i, j :: 0 <= i < j < |s| ==> s[i] != s[j]
  }

  lemma OrderedDistinct(s: seq<Addr>, z: map<Addr, nat>)
    requires Ordered(s, z)
    ensures Distinct(s)
  {
    forall i, j | 0 <= i < j < |s|
      ensures s[i] != s[j]
    {
      OrderedBelow(s, z, i, j);
    }
  }

  /** The block before position p of s, NULL at the front. */
  function Before(s: seq<Addr>, p: nat): Option<Addr>
    requires p <= |s|
  {
    if p == 0 then None else Some(s[p - 1])
  }

  /** The block at position p of s, NULL past the end. */
  function After(s: seq<Addr>, p: nat): Option<Addr>
  {
    if p < |s| then Some(s[p]) else None
  }

  /** `l` encodes the list s: the head is its first block, and each block's
      PREV and NEXT are its neighbours in s, NULL at the ends. */
  predicate Linked(l: Links, s: seq<Addr>)
  {
    && l.head == After(s, 0)
    && (forall k :: 0 <= k < |s| ==> s[k] in l.prevs && s[k] in l.nexts)
    && (forall k {:trigger l.prevs[s[k]]} :: 0 <= k < |s| ==> l.prevs[s[k]] == Before(s, k))
    && (forall k {:trigger l.nexts[s[k]]} :: 0 <= k < |s| ==> l.nexts[s[k]] == After(s, k + 1))
  }

  /** The head and NEXT words determine the list: following NEXT from the head
      reaches exactly the blocks of s, in order. */
  lemma {:induction false} LinkedUnique(l: Links, s: seq<Addr>, t: seq<Addr>, i: nat)
    requires Linked(l, s) && Linked(l, t) && i <= |s| && i <= |t|
    requires forall j :: 0 <= j < i ==> s[j] == t[j]
    requires i < |s| || i < |t|
    ensures i < |s| && i < |t| && s[i] == t[i]
  {
    if i > 0 {
      assert l.nexts[s[i - 1]] == After(s, i) && l.nexts[t[i - 1]] == After(t, i);
    }
  }

  lemma LinkedIsList(l: Links, s: seq<Addr>, t: seq<Addr>)
    requires Linked(l, s) && Linked(l, t)
    ensures s == t
  {
    var i := 0;
    while i < |s| || i < |t|
      invariant i <= |s| && i <= |t|
      invariant forall j :: 0 <= j < i ==> s[j] == t[j]
      decreases |s| - i
    {
      LinkedUnique(l, s, t, i);
      i := i + 1;
    }
  }

  /** Unlinking `node` (kma_rm.c:230-241, 309-312, 322-325 and 342-349): its
      predecessor's NEXT, or the head, takes its NEXT, and its successor's PREV
      takes its PREV. */
  function Unlink(l: Links, node: Addr): Links
    requires node in l.prevs && node in l.nexts
  {
    var prev, next := l.prevs[node], l.nexts[node];
    var l1 := if prev.Some? then l.(nexts := l.nexts[prev.value := next]) else l.(head := next);
    if next.Some? then l1.(prevs := l1.prevs[next.value := prev]) else l1
  }

  /** Unlinking the k-th block of an encoded list encodes the list without it,
      and touches no other block's words. */
  lemma UnlinkRemoves(l: Links, s: seq<Addr>, k: nat)
    requires Linked(l, s) && Distinct(s) && k < |s|
    ensures Linked(Unlink(l, s[k]), Remove(s, k))
  {
    var l' := Unlink(l, s[k]);
    var r := Remove(s, k);
    forall j | 0 <= j < |r|
      ensures r[j] in l'.prevs && l'.prevs[r[j]] == Before(r, j)
      ensures r[j] in l'.nexts && l'.nexts[r[j]] == After(r, j + 1)
    {
      UnlinkPrevAt(l, s, k, j);
      UnlinkNextAt(l, s, k, j);
    }
    UnlinkHead(l, s, k);
  }

  /** The words of the i-th block of an encoded list. */
  lemma LinkedAt(l: Links, s: seq<Addr>, i: nat)
    requires Linked(l, s) && i < |s|
    ensures s[i] in l.prevs && l.prevs[s[i]] == Before(s, i)
    ensures s[i] in l.nexts && l.nexts[s[i]] == After(s, i + 1)
  {
  }

  /** The words of a block x other than `node` after unlinking `node`. */
  lemma UnlinkWords(l: Links, node: Addr, x: Addr)
    requires node in l.prevs && node in l.nexts && x in l.prevs && x in l.nexts && x != node
    ensures var l', prev, next := Unlink(l, node), l.prevs[node], l.nexts[node];
      && l'.head == (if prev.Some? then l.head else next)
      && x in l'.prevs && l'.prevs[x] == (if next == Some(x) then prev else l.prevs[x])
      && x in l'.nexts && l'.nexts[x] == (if prev == Some(x) then next else l.nexts[x])
  {
  }

  lemma UnlinkHead(l: Links, s: seq<Addr>, k: nat)
    requires Linked(l, s) && k < |s|
    ensures Unlink(l, s[k]).head == After(Remove(s, k), 0)
  {
    LinkedAt(l, s, k);
  }

  lemma UnlinkPrevAt(l: Links, s: seq<Addr>, k: nat, j: nat)
    requires Linked(l, s) && Distinct(s) && k < |s| && j < |s| - 1
    ensures var l', r := Unlink(l, s[k]), Remove(s, k);
      r[j] in l'.prevs && l'.prevs[r[j]] == Before(r, j)
  {
    var j' := if j < k then j else j + 1;
    assert Remove(s, k)[j] == s[j'] && j' != k;
    LinkedAt(l, s, k);
    LinkedAt(l, s, j');
    UnlinkWords(l, s[k], s[j']);
    assert After(s, k + 1) == Some(s[j']) <==> j' == k + 1;
  }

  lemma UnlinkNextAt(l: Links, s: seq<Addr>, k: nat, j: nat)
    requires Linked(l, s) && Distinct(s) && k < |s| && j < |s| - 1
    ensures var l', r := Unlink(l, s[k]), Remove(s, k);
      r[j] in l'.nexts && l'.nexts[r[j]] == After(r, j + 1)
  {
    var j' := if j < k then j else j + 1;
    assert Remove(s, k)[j] == s[j'] && j' != k;
    LinkedAt(l, s, k);
    LinkedAt(l, s, j');
    UnlinkWords(l, s[k], s[j']);
    assert Before(s, k) == Some(s[j']) <==> j' + 1 == k;
  }

  /** The splice of kma_rm.c:283-294 putting `a` between `prev` and `node`;
      with both NULL it is also the empty-list case of lines 272-275. */
  function Link(l: Links, a: Addr, prev: Option<Addr>, node: Option<Addr>): Links
  {
    var l1 := if node.Some? then l.(prevs := l.prevs[node.value := Some(a)]) else l;
    var l2 := if prev.None? then l1.(head := Some(a)) else l1.(nexts := l1.nexts[prev.value := Some(a)]);
    l2.(nexts := l2.nexts[a := node], prevs := l2.prevs[a := prev])
  }

  /** Splicing `a` in where the insert walk stops encodes the list with `a`
      inserted, and touches no other block's words. */
  lemma LinkInserts(l: Links, s: seq<Addr>, a: Addr)
    requires Linked(l, s) && Distinct(s) && a !in s
    ensures var p := InsertPos(s, a);
      Linked(Link(l, a, Before(s, p), After(s, p)), Insert(s, a))
  {
    var p := InsertPos(s, a);
    var l', r := Link(l, a, Before(s, p), After(s, p)), Insert(s, a);
    forall j | 0 <= j < |r|
      ensures r[j] in l'.prevs && r[j] in l'.nexts
      ensures l'.prevs[r[j]] == Before(r, j) && l'.nexts[r[j]] == After(r, j + 1)
    {
      LinkInsertsAt(l, s, a, j);
    }
    LinkHead(l, s, a);
  }

  /** The words of a block x other than `a` after splicing `a` in. */
  lemma LinkWords(l: Links, a: Addr, prev: Option<Addr>, node: Option<Addr>, x: Addr)
    requires x in l.prevs && x in l.nexts && x != a
    ensures var l' := Link(l, a, prev, node);
      && l'.head == (if prev.None? then Some(a) else l.head)
      && a in l'.prevs && l'.prevs[a] == prev && a in l'.nexts && l'.nexts[a] == node
      && x in l'.prevs && l'.prevs[x] == (if node == Some(x) then Some(a) else l.prevs[x])
      && x in l'.nexts && l'.nexts[x] == (if prev == Some(x) then Some(a) else l.nexts[x])
  {
  }

  lemma LinkHead(l: Links, s: seq<Addr>, a: Addr)
    requires Linked(l, s)
    ensures var p := InsertPos(s, a);
      Link(l, a, Before(s, p), After(s, p)).head == After(Insert(s, a), 0)
  {
    InsertAt(s, a);
  }

  /** The words of block j of the list with `a` inserted are its neighbours. */
  lemma LinkInsertsAt(l: Links, s: seq<Addr>, a: Addr, j: nat)
    requires Linked(l, s) && Distinct(s) && a !in s && j <= |s|
    ensures var p := InsertPos(s, a);
      var l', r := Link(l, a, Before(s, p), After(s, p)), Insert(s, a);
      && r[j] in l'.prevs && l'.prevs[r[j]] == Before(r, j)
      && r[j] in l'.nexts && l'.nexts[r[j]] == After(r, j + 1)
  {
    var p := InsertPos(s, a);
    var prev, node := Before(s, p), After(s, p);
    var r := Insert(s, a);
    InsertAt(s, a);
    if j == p {
      if s == [] {
        assert Link(l, a, prev, node) == Links(Some(a), l.prevs[a := None], l.nexts[a := None]);
      } else {
        LinkWords(l, a, prev, node, s[0]);
      }
    } else {
      var j' := if j < p then j else j - 1;
      assert r[j] == s[j'] && r[j] != a;
      LinkedAt(l, s, j');
      LinkWords(l, a, prev, node, s[j']);
      assert node == Some(s[j']) <==> j' == p;
      assert prev == Some(s[j']) <==> j' + 1 == p;
    }
  }

  // ---------------------------------------------------------------------------
  // Root-page handover (kma_rm.c:342-357)

  /** The root page and list head after block `hdr`, which spans its page, is
      unlinked and its page released, as written: when `hdr` is in the root
      page, the root moves to the page of NEXT(hdr) and that block becomes the
      head, even when PREV(hdr) is not NULL. NEXT(hdr) is the value read before
      the page is freed. With no root there is no head. */
  function ReleaseAsWritten(root: nat, l: Links, hdr: Addr): (r: (Option<nat>, Links))
    requires hdr in l.prevs && hdr in l.nexts
  {
    var next := l.nexts[hdr];
    var l1 := Unlink(l, hdr);
    if hdr.page != root then (Some(root), l1)
    else if next.Some? then (Some(next.value.page), l1.(head := next))
    else (None, l1.(head := None))
  }

  /** The handover as evidently intended: the list keeps its head after the
      unlink, and the root moves to the page holding that head, or becomes
      NULL when the list is empty. */
  function Release(root: nat, l: Links, hdr: Addr): (r: (Option<nat>, Links))
    requires hdr in l.prevs && hdr in l.nexts
  {
    var l1 := Unlink(l, hdr);
    if hdr.page != root then (Some(root), l1)
    else if l1.head.Some? then (Some(l1.head.value.page), l1)
    else (None, l1)
  }

  /** As written, releasing a root-page block keeps only the blocks after it
      on the list: every free block below it is lost. */
  lemma ReleaseAsWrittenKeepsTail(root: nat, l: Links, s: seq<Addr>, k: nat)
    requires Linked(l, s) && Distinct(s) && k < |s| && s[k].page == root
    ensures var r := ReleaseAsWritten(root, l, s[k]);
      && (k + 1 < |s| ==> r.0 == Some(s[k + 1].page) && Linked(r.1.(prevs := r.1.prevs[s[k + 1] := None]), s[k + 1..]))
      && (k + 1 == |s| ==> r.0 == None)
  {
    UnlinkRemoves(l, s, k);
    var l1 := Unlink(l, s[k]);
    if k + 1 < |s| {
      var t, l2 := s[k + 1..], l1.(head := Some(s[k + 1]), prevs := l1.prevs[s[k + 1] := None]);
      var rm := Remove(s, k);
      forall j | 0 <= j < |t|
        ensures t[j] in l2.prevs && l2.prevs[t[j]] == Before(t, j)
        ensures t[j] in l2.nexts && l2.nexts[t[j]] == After(t, j + 1)
      {
        TailAt(l1, s, k, j);
      }
    }
  }

  /** Block j of the blocks after position k, once the k-th block is unlinked
      and the head and PREV of block k + 1 are reset. */
  lemma TailAt(l1: Links, s: seq<Addr>, k: nat, j: nat)
    requires Distinct(s) && k + 1 < |s| && j < |s| - k - 1
    requires Linked(l1, Remove(s, k))
    ensures var t, l2 := s[k + 1..], l1.(head := Some(s[k + 1]), prevs := l1.prevs[s[k + 1] := None]);
      && t[j] in l2.prevs && l2.prevs[t[j]] == Before(t, j)
      && t[j] in l2.nexts && l2.nexts[t[j]] == After(t, j + 1)
  {
    var rm := Remove(s, k);
    assert s[k + 1 + j] == rm[k + j];
    LinkedAt(l1, rm, k + j);
    if j > 0 {
      assert s[k + 1 + j] != s[k + 1];
    }
    if j + 1 < |s| - k - 1 {
      assert s[k + 2 + j] == rm[k + j + 1];
    }
  }

  /** The corrected handover keeps the list: it encodes the list without the
      released block, and the new root holds its head. */
  lemma ReleaseKeepsList(root: nat, l: Links, s: seq<Addr>, k: nat)
    requires Linked(l, s) && Distinct(s) && k < |s|
    ensures var r := Release(root, l, s[k]); var rest := Remove(s, k);
      && Linked(r.1, rest)
      && r.0 == (if s[k].page != root then Some(root) else if rest == [] then None else Some(rest[0].page))
  {
    UnlinkRemoves(l, s, k);
  }

  /** Three free blocks in frames 3, 5 and 7; the root page is frame 5. */
  function Example(): (r: (seq<Addr>, Links))
  {
    var a, b, c := Addr(3, 8), Addr(5, 8), Addr(7, 8);
    ([a, b, c],
     Links(Some(a),
           map[a := None, b := Some(a), c := Some(b)],
           map[a := Some(b), b := Some(c), c := None]))
  }

  /** Releasing the root-page block (5, 8) of Example(): as written the list is
      left starting at (7, 8), so the free block (3, 8) can no longer be found,
      and the new head's PREV still names it; the corrected handover keeps
      [(3, 8), (7, 8)] with its root in frame 3. */
  lemma ReleaseAsWrittenLosesBlock()
    ensures var (s, l) := Example();
      && Linked(l, s)
      && var w := ReleaseAsWritten(5, l, Addr(5, 8));
      && w.0 == Some(7) && w.1.head == Some(Addr(7, 8))
      && w.1.prevs[Addr(7, 8)] == Some(Addr(3, 8))
      && !Linked(w.1, [Addr(3, 8), Addr(7, 8)])
      && var c := Release(5, l, Addr(5, 8));
      && c.0 == Some(3) && Linked(c.1, [Addr(3, 8), Addr(7, 8)])
  {
    var (s, l) := Example();
    assert Linked(l, s);
    var c := Release(5, l, Addr(5, 8));
    ReleaseKeepsList(5, l, s, 1);
    assert Remove(s, 1) == [Addr(3, 8), Addr(7, 8)];
  }
}
