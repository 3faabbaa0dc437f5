/** The shell's background-job list (runtime.c:74-84): a singly linked list of
    job records, kept in ascending job-id order, with the global head `bgjobs`.
    AddJob (runtime.c:135-183) inserts a new record under the least positive job
    id not in use; CheckJobTermination (runtime.c:508-520) unlinks a job whose
    process has terminated. */
module Jobs {

  // ---------------------------------------------------------------------------
  // The job ids of the list, as a sequence

  /** Job ids in strictly ascending order. */
  predicate Ascending(js: seq<int>)
  {
    forall i, j :: 0 <= i < j < |js| ==> js[i] < js[j]
  }

  predicate Positive(js: seq<int>)
  {
    forall i :: 0 <= i < |js| ==> js[i] >= 1
  }

  /** The AddJob walk stops at node i: it is the last node, or the id after it
      is more than one larger (runtime.c:155-161). */
  predicate Gap(js: seq<int>, i: nat)
    requires i < |js|
  {
    i + 1 == |js| || js[i + 1] - js[i] > 1
  }

  /** The first node at or after `from` where the walk stops. */
  function GapIndex(js: seq<int>, from: nat): (r: nat)
    requires from < |js|
    ensures from <= r < |js| && Gap(js, r)
    ensures forall m :: from <= m < r ==> !Gap(js, m)
    decreases |js| - from
  {
    if Gap(js, from) then from else GapIndex(js, from + 1)
  }

  /** Where AddJob puts the new job: at the head when the list is empty or its
      head's id is above 1 (runtime.c:146-150, 172-175), else right after the
      node where the walk stops (runtime.c:176-179). */
  function Slot(js: seq<int>): (p: nat)
    ensures p <= |js|
    ensures p > 0 <==> js != [] && js[0] <= 1
  {
    if js == [] || js[0] > 1 then 0 else GapIndex(js, 0) + 1
  }

  /** The id AddJob gives the new job: 1 at the head, else one more than the
      id of the node it follows (runtime.c:143, 163, 170). */
  function NewJid(js: seq<int>): int
  {
    var p := Slot(js);
    if p == 0 then 1 else js[p - 1] + 1
  }

  /** The ids with `x` put at position p. */
  function InsertAt(js: seq<int>, p: nat, x: int): (r: seq<int>)
    requires p <= |js|
    ensures |r| == |js| + 1 && r[p] == x
    ensures forall i :: 0 <= i < |r| && i != p ==> r[i] == js[if i < p then i else i - 1]
  {
    js[..p] + [x] + js[p..]
  }

  function RemoveAt(js: seq<int>, k: nat): (r: seq<int>)
    requires k < |js|
    ensures |r| == |js| - 1
    ensures forall i :: 0 <= i < |r| ==> r[i] == js[if i < k then i else i + 1]
  {
    js[..k] + js[k + 1..]
  }

  /** Up to the walk's stop, an ascending list of positive ids starting at 1
      holds exactly 1, 2, 3, ... */
  lemma {:induction false} Consecutive(js: seq<int>, m: nat)
    requires Ascending(js) && js != [] && js[0] == 1
    requires m < |js| && forall q :: 0 <= q < m ==> !Gap(js, q)
    ensures js[m] == m + 1
  {
    if m > 0 {
      Consecutive(js, m - 1);
      assert !Gap(js, m - 1);
    }
  }

  /** On an ascending list of positive ids, AddJob picks the least positive id
      that is not in use. */
  lemma NewJidIsLeastUnused(js: seq<int>)
    requires Ascending(js) && Positive(js)
    ensures NewJid(js) >= 1 && NewJid(js) !in js
    ensures forall m :: 1 <= m < NewJid(js) ==> m in js
  {
    var p := Slot(js);
    if p == 0 {
      forall i | 0 <= i < |js| ensures js[i] != 1 {
        if i > 0 { assert js[0] < js[i]; }
      }
    } else {
      var g := p - 1;
      assert js[0] == 1;
      forall q | 0 <= q <= g ensures js[q] == q + 1 {
        Consecutive(js, q);
      }
      assert NewJid(js) == g + 2;
      forall i | 0 <= i < |js| ensures js[i] != g + 2 {
        if i > g + 1 {
          assert js[g + 1] < js[i];
        }
      }
      forall m | 1 <= m < g + 2 ensures m in js {
        assert js[m - 1] == m;
      }
    }
  }

  /** After AddJob, the ids are still strictly ascending and positive: the new
      id is above every id before its slot and below every id after it. */
  lemma AddKeepsAscending(js: seq<int>)
    requires Ascending(js) && Positive(js)
    ensures var p, x := Slot(js), NewJid(js);
      && (forall i :: 0 <= i < p ==> js[i] < x)
      && (forall i :: p <= i < |js| ==> x < js[i])
      && Ascending(InsertAt(js, p, x)) && Positive(InsertAt(js, p, x))
  {
    var p, x := Slot(js), NewJid(js);
    NewJidIsLeastUnused(js);
    if p > 0 {
      forall i | 0 <= i < p ensures js[i] < x {
        if i < p - 1 { assert js[i] < js[p - 1]; }
      }
      if p < |js| {
        assert Gap(js, p - 1);
        forall i | p <= i < |js| ensures x < js[i] {
          if i > p { assert js[p] < js[i]; }
        }
      }
    } else {
      forall i | 0 <= i < |js| ensures x < js[i] {
        if i > 0 { assert js[0] < js[i]; }
      }
    }
    var r := InsertAt(js, p, x);
    forall i, j | 0 <= i < j < |r| ensures r[i] < r[j] {
      if i != p && j != p {
        assert js[if i < p then i else i - 1] < js[if j < p then j else j - 1];
      }
    }
  }

  /** Unlinking a job keeps the ids strictly ascending and positive. */
  lemma SuffixKeepsAscending(js: seq<int>, k: nat)
    requires Ascending(js) && Positive(js) && k <= |js|
    ensures Ascending(js[k..]) && Positive(js[k..])
  {
    forall i, j | 0 <= i < j < |js| - k ensures js[k..][i] < js[k..][j] {
      assert js[k + i] < js[k + j];
    }
  }

  lemma RemoveKeepsAscending(js: seq<int>, k: nat)
    requires Ascending(js) && Positive(js) && k < |js|
    ensures Ascending(RemoveAt(js, k)) && Positive(RemoveAt(js, k))
  {
    var r := RemoveAt(js, k);
    forall i, j | 0 <= i < j < |r| ensures r[i] < r[j] {
      assert js[if i < k then i else i + 1] < js[if j < k then j else j + 1];
    }
  }

  // ---------------------------------------------------------------------------
  // The linked list

  /** One record of the list (bgjobL, runtime.c:74-81). The process id, the
      job id and the command line are written once, when AddJob fills the
      record in, and never again; the status and the link change later. */
  class Job {
    const pid: int
    const jid: int
    const cmdline: string
    /** Running, stopped or done; 1 marks a terminated job. */
    var status: int
    var next: Job?

    /** The malloc and the field writes of runtime.c:136-140 and 170; the
        link is written when the record is spliced in. */
    constructor (pid: int, jid: int, cmdline: string, status: int)
      ensures this.pid == pid && this.jid == jid && this.cmdline == cmdline && this.status == status
      ensures next == null
    {
      this.pid := pid;
      this.jid := jid;
      this.cmdline := cmdline;
      this.status := status;
      next := null;
    }
  }

  /** Record i of ns. Valid() states its facts about positions of the list on
      At, so that they are only instantiated where a proof names a position. */
  function At(ns: seq<Job>, i: nat): Job
    requires i < |ns|
  {
    ns[i]
  }

  /** No record occurs twice in ns. */
  predicate Distinct(ns: seq<Job>)
  {
    forall i, j {:trigger At(ns, i), At(ns, j)} :: 0 <= i < j < |ns| ==> At(ns, i) != At(ns, j)
  }

  lemma DistinctAt(ns: seq<Job>, i: nat, j: nat)
    requires Distinct(ns) && i < |ns| && j < |ns| && i != j
    ensures ns[i] != ns[j]
  {
    if i < j {
      assert At(ns, i) != At(ns, j);
    } else {
      assert At(ns, j) != At(ns, i);
    }
  }

  lemma DistinctInsert(ns: seq<Job>, p: nat, x: Job)
    requires Distinct(ns) && p <= |ns| && x !in ns
    ensures Distinct(ns[..p] + [x] + ns[p..])
  {
    var r := ns[..p] + [x] + ns[p..];
    forall a, b | 0 <= a < b < |r| ensures At(r, a) != At(r, b) {
      if a != p && b != p {
        assert r[a] == ns[if a < p then a else a - 1] && r[b] == ns[if b < p then b else b - 1];
        DistinctAt(ns, if a < p then a else a - 1, if b < p then b else b - 1);
      } else {
        assert r[p] == x;
        assert a != p ==> r[a] == ns[if a < p then a else a - 1];
        assert b != p ==> r[b] == ns[if b < p then b else b - 1];
      }
    }
  }

  lemma DistinctRemove(ns: seq<Job>, k: nat)
    requires Distinct(ns) && k < |ns|
    ensures Distinct(ns[..k] + ns[k + 1..])
  {
    var r := ns[..k] + ns[k + 1..];
    forall a, b | 0 <= a < b < |r| ensures At(r, a) != At(r, b) {
      assert r[a] == ns[if a < k then a else a + 1] && r[b] == ns[if b < k then b else b + 1];
      DistinctAt(ns, if a < k then a else a + 1, if b < k then b else b + 1);
    }
  }

  lemma DistinctSuffix(ns: seq<Job>, k: nat)
    requires Distinct(ns) && k <= |ns|
    ensures Distinct(ns[k..])
  {
    var r := ns[k..];
    forall a, b | 0 <= a < b < |r| ensures At(r, a) != At(r, b) {
      DistinctAt(ns, k + a, k + b);
    }
  }

  /** The job ids of the records ns. */
  function JidsOf(ns: seq<Job>): (js: seq<int>)
    ensures |js| == |ns| && forall i :: 0 <= i < |ns| ==> js[i] == ns[i].jid
  {
    seq(|ns|, i requires 0 <= i < |ns| => ns[i].jid)
  }

  lemma JidsInsert(ns: seq<Job>, p: nat, x: Job)
    requires p <= |ns|
    ensures JidsOf(ns[..p] + [x] + ns[p..]) == InsertAt(JidsOf(ns), p, x.jid)
  {
    var r, t := JidsOf(ns[..p] + [x] + ns[p..]), InsertAt(JidsOf(ns), p, x.jid);
    forall q | 0 <= q < |r| ensures r[q] == t[q] {
      if q != p {
        assert (ns[..p] + [x] + ns[p..])[q] == ns[if q < p then q else q - 1];
      }
    }
  }

  lemma JidsRemove(ns: seq<Job>, k: nat)
    requires k < |ns|
    ensures JidsOf(ns[..k] + ns[k + 1..]) == RemoveAt(JidsOf(ns), k)
  {
    var r, t := JidsOf(ns[..k] + ns[k + 1..]), RemoveAt(JidsOf(ns), k);
    forall q | 0 <= q < |r| ensures r[q] == t[q] {
      assert (ns[..k] + ns[k + 1..])[q] == ns[if q < k then q else q + 1];
    }
  }

  lemma JidsSuffix(ns: seq<Job>, k: nat)
    requires k <= |ns|
    ensures JidsOf(ns[k..]) == JidsOf(ns)[k..]
  {
  }

  /** The global list `bgjobs` (runtime.c:84). */
  class JobList {
    var head: Job?
    /** The records reachable from `head`, in list order. */
    ghost var nodes: seq<Job>

    ghost predicate Valid()
      reads this, nodes
    {
      && head == (if nodes == [] then null else nodes[0])
      && (forall i {:trigger At(nodes, i).next} :: 0 <= i < |nodes| ==> At(nodes, i).next == if i + 1 < |nodes| then nodes[i + 1] else null)
      && Distinct(nodes)
    }

    /** The job ids along the list. */
    ghost function Jids(): (js: seq<int>)
      reads this
    {
      JidsOf(nodes)
    }

    constructor ()
      ensures Valid() && nodes == []
    {
      head := null;
      nodes := [];
    }

    /** AddJob: a new record for `pid` goes in at Slot(Jids()) under id
        NewJid(Jids()); every old record keeps its place and its fields. */
    method AddJob(pid: int, cmdline: string, status: int) returns (job: Job)
      requires Valid()
      modifies this, nodes
      ensures Valid() && fresh(job)
      ensures job.pid == pid && job.cmdline == cmdline && job.status == status
      ensures job.jid == NewJid(old(Jids()))
      ensures nodes == old(nodes[..Slot(Jids())] + [job] + nodes[Slot(Jids())..])
      ensures Jids() == InsertAt(old(Jids()), Slot(old(Jids())), NewJid(old(Jids())))
      ensures forall n :: n in old(nodes) ==> n.status == old(n.status)
      ensures old(Ascending(Jids()) && Positive(Jids())) ==>
        Ascending(Jids()) && Positive(Jids()) && job.jid !in old(Jids())
    {
      ghost var js := Jids();
      var found, jid, p := FindSlot();
      job := new Job(pid, jid, cmdline, status);
      LinkAfter(job, found, p);
      if Ascending(js) && Positive(js) {
        NewJidIsLeastUnused(js);
        AddKeepsAscending(js);
      }
    }

    /** The walk of AddJob (runtime.c:141-168): the node the new job goes
        after, NULL for the head, and the id it gets. */
    method FindSlot() returns (found: Job?, jid: int, ghost p: nat)
      requires Valid()
      ensures p == Slot(Jids()) && jid == NewJid(Jids())
      ensures found == if p == 0 then null else nodes[p - 1]
    {
      ghost var js := Jids();
      ghost var ns := nodes;
      var node := head;
      found := null;
      jid := 1;
      ghost var i: nat := 0;
      if node != null && node.jid > 1 {
        node := null;
      }
      while node != null
        invariant i <= |ns| && found == null && jid == 1
        invariant node != null ==> i < |ns| && node == ns[i] && js[0] <= 1
        invariant node == null ==> js == [] || js[0] > 1
        invariant forall m :: 0 <= m < i ==> !Gap(js, m)
        decreases |ns| - i
      {
        assert node == nodes[i];
        assert At(nodes, i).next == if i + 1 < |nodes| then nodes[i + 1] else null;
        var difference := 0;
        if node.next != null {
          difference := node.next.jid - node.jid;
        } else {
          difference := 2;
        }
        assert difference > 1 <==> Gap(js, i);
        if difference > 1 {
          jid := node.jid + 1;
          found := node;
          break;
        }
        node := node.next;
        i := i + 1;
      }
      p := if found == null then 0 else i + 1;
      assert found != null ==> GapIndex(js, 0) == i;
    }

    /** The splice of AddJob (runtime.c:172-180): `job` goes in at position
        p, after `found`, or at the head when `found` is NULL. */
    method LinkAfter(job: Job, found: Job?, ghost p: nat)
      requires Valid() && job !in nodes && p <= |nodes|
      requires found == if p == 0 then null else nodes[p - 1]
      modifies this, found, job
      ensures Valid()
      ensures nodes == old(nodes[..p] + [job] + nodes[p..])
      ensures Jids() == InsertAt(old(Jids()), p, job.jid)
      ensures job.status == old(job.status)
      ensures forall n :: n in old(nodes) ==> n.status == old(n.status)
    {
      ghost var ns := nodes;
      assert found != job;
      if found == null {
        job.next := head;
        head := job;
      } else {
        job.next := found.next;
        found.next := job;
      }
      nodes := ns[..p] + [job] + ns[p..];
      forall q | 0 <= q < |nodes|
        ensures At(nodes, q).next == if q + 1 < |nodes| then nodes[q + 1] else null
      {
        if q != p {
          var q' := if q < p then q else q - 1;
          assert nodes[q] == ns[q'] == old(nodes[q']);
          assert old(At(nodes, q').next) == if q' + 1 < |ns| then ns[q' + 1] else null;
          if p > 0 && q + 1 != p {
            DistinctAt(ns, q', p - 1);
          }
        } else {
          assert p > 0 ==> old(At(nodes, p - 1).next) == if p < |ns| then ns[p] else null;
        }
      }
      DistinctInsert(ns, p, job);
      JidsInsert(ns, p, job);
    }

    /** The unlink of CheckJobTermination with the waitpid test as
        `terminated`, for the k-th record `node` and a `prev` whose link
        points at it (or NULL), as both callers pass them (runtime.c:546-568,
        576-592). A terminated job is marked done and `prev`'s link, or the
        head, skips it:
        - prev NULL: the list now starts after `node`, so for k == 0 `node`
          leaves the list;
        - prev the (k-1)-th record: `node` leaves the list;
        - prev off the list (a record an earlier call unlinked, which the
          callers still hand over as `prev`): only that stale record's link
          changes, and `node` stays in the list although it is marked done.
        The record's own link is left as it was. */
    method CheckJobTermination(prev: Job?, node: Job, ghost k: nat, terminated: bool)
      requires Valid() && k < |nodes| && node == nodes[k]
      requires prev != null ==> prev.next == node
      modifies this, prev, node
      ensures Valid()
      ensures node.next == old(node.next)
      ensures !terminated ==> nodes == old(nodes) && node.status == old(node.status)
      ensures !terminated && prev != null ==> prev.next == old(prev.next)
      ensures terminated ==> node.status == 1
      ensures terminated && prev == null ==> nodes == old(nodes[k + 1..]) && Jids() == old(Jids()[k + 1..])
      ensures terminated && prev != null && prev in old(nodes) ==>
        && k > 0 && prev == old(nodes[k - 1])
        && nodes == old(nodes[..k] + nodes[k + 1..]) && Jids() == RemoveAt(old(Jids()), k)
      ensures terminated && prev != null && prev !in old(nodes) ==>
        nodes == old(nodes) && prev.next == old(node.next) && node in nodes
      ensures forall n :: n in old(nodes) && n != node ==> n.status == old(n.status)
      ensures prev != null ==> prev.status == old(prev.status)
      ensures old(Ascending(Jids()) && Positive(Jids())) ==> Ascending(Jids()) && Positive(Jids())
    {
      if terminated {
        if prev == null {
          DropThrough(node, k);
        } else {
          Relink(prev, node, k);
        }
        node.status := 1;
      }
    }

    /** `bgjobs = (*node)->next`: the list now starts after the k-th record. */
    method DropThrough(node: Job, ghost k: nat)
      requires Valid() && k < |nodes| && node == nodes[k]
      modifies this
      ensures Valid() && nodes == old(nodes[k + 1..]) && Jids() == old(Jids()[k + 1..])
      ensures old(Ascending(Jids()) && Positive(Jids())) ==> Ascending(Jids()) && Positive(Jids())
    {
      ghost var js := Jids();
      ghost var ns := nodes;
      assert At(ns, k).next == if k + 1 < |ns| then ns[k + 1] else null;
      head := node.next;
      nodes := ns[k + 1..];
      forall i | 0 <= i < |nodes|
        ensures At(nodes, i).next == if i + 1 < |nodes| then nodes[i + 1] else null
      {
        assert nodes[i] == ns[k + 1 + i];
        assert At(ns, k + 1 + i).next == if k + 2 + i < |ns| then ns[k + 2 + i] else null;
      }
      DistinctSuffix(ns, k + 1);
      JidsSuffix(ns, k + 1);
      if Ascending(js) && Positive(js) {
        SuffixKeepsAscending(js, k + 1);
      }
    }

    /** `(*prev)->next = (*node)->next`. When `prev` is on the list it is the
        (k-1)-th record and the k-th leaves the list; when it is off the list
        the list is as it was. */
    method Relink(prev: Job, node: Job, ghost k: nat)
      requires Valid() && k < |nodes| && node == nodes[k] && prev.next == node
      modifies this, prev
      ensures Valid() && prev.next == old(node.next) && prev.status == old(prev.status) && prev != node
      ensures prev in old(nodes) ==>
        && k > 0 && prev == old(nodes[k - 1])
        && nodes == old(nodes[..k] + nodes[k + 1..]) && Jids() == RemoveAt(old(Jids()), k)
      ensures prev !in old(nodes) ==> nodes == old(nodes)
      ensures old(Ascending(Jids()) && Positive(Jids())) ==> Ascending(Jids()) && Positive(Jids())
    {
      ghost var js := Jids();
      ghost var ns := nodes;
      if prev in ns {
        PredecessorAt(prev, k);
      }
      assert At(ns, k).next == if k + 1 < |ns| then ns[k + 1] else null;
      if k + 1 < |ns| {
        DistinctAt(ns, k, k + 1);
      }
      prev.next := node.next;
      if prev in ns {
        nodes := ns[..k] + ns[k + 1..];
        forall i | 0 <= i < |nodes|
          ensures At(nodes, i).next == if i + 1 < |nodes| then nodes[i + 1] else null
        {
          var i' := if i < k then i else i + 1;
          assert nodes[i] == ns[i'];
          assert old(At(nodes, i').next) == if i' + 1 < |ns| then ns[i' + 1] else null;
          if i + 1 != k {
            DistinctAt(ns, i', k - 1);
          }
        }
        DistinctRemove(ns, k);
        JidsRemove(ns, k);
        if Ascending(js) && Positive(js) {
          RemoveKeepsAscending(js, k);
        }
      }
    }

    /** A record of the list whose link points at the k-th record is the
        (k-1)-th. */
    lemma PredecessorAt(prev: Job, k: nat)
      requires Valid() && k < |nodes| && prev in nodes && prev.next == nodes[k]
      ensures k > 0 && prev == nodes[k - 1]
    {
      var j :| 0 <= j < |nodes| && nodes[j] == prev;
      assert At(nodes, j).next == if j + 1 < |nodes| then nodes[j + 1] else null;
      if j + 1 != k {
        DistinctAt(nodes, j + 1, k);
      }
    }
  }
}
