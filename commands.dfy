/** Command lookup in the shell's runtime: the built-in test of IsBuiltIn
    (runtime.c:493-504) and the PATH search of ResolveExternalCmd
    (runtime.c:392-435). A C string is a sequence of characters read up to its
    first NUL; the file-system test of a candidate path (stat succeeds, the
    path is not a directory, and access grants X_OK) is the parameter
    `runnable`. */
module Commands {
  import opened Wrappers

  // ---------------------------------------------------------------------------
  // C strings

  /** The C string held by s: its characters before the first NUL. */
  function CStr(s: string): (t: string)
    ensures |t| <= |s| && t == s[..|t|] && '\0' !in t
    ensures |t| < |s| ==> s[|t|] == '\0'
  {
    if s == [] || s[0] == '\0' then [] else [s[0]] + CStr(s[1..])
  }

  lemma {:induction false} CStrOfPlain(s: string)
    requires '\0' !in s
    ensures CStr(s) == s
  {
    if s != [] {
      CStrOfPlain(s[1..]);
    }
  }

  /** strcmp: the difference of the first characters where the two C strings
      differ, 0 when they are equal. */
  function StrCmp(a: string, b: string): (r: int)
    ensures r == 0 <==> CStr(a) == CStr(b)
    decreases |a|
  {
    var ca := if a == [] then '\0' else a[0];
    var cb := if b == [] then '\0' else b[0];
    if ca != cb then ca as int - cb as int
    else if ca == '\0' then 0
    else StrCmp(a[1..], b[1..])
  }

  /** The built-in commands of the shell. */
  const BuiltIns: set<string> := {"cd", "jobs", "fg", "bg"}

  /** IsBuiltIn: the command is one of the built-ins. */
  function IsBuiltIn(cmd: string): (r: bool)
    ensures r <==> CStr(cmd) in BuiltIns
  {
    CStrOfPlain("cd"); CStrOfPlain("jobs"); CStrOfPlain("fg"); CStrOfPlain("bg");
    StrCmp(cmd, "cd") == 0 || StrCmp(cmd, "jobs") == 0 || StrCmp(cmd, "fg") == 0 || StrCmp(cmd, "bg") == 0
  }

  /** For a command without NUL characters, IsBuiltIn is membership. */
  lemma IsBuiltInPlain(cmd: string)
    requires '\0' !in cmd
    ensures IsBuiltIn(cmd) <==> cmd in BuiltIns
  {
    CStrOfPlain(cmd);
  }

  /** strchr(&s[from], c): the first position at or after `from` holding c. */
  function StrChr(s: string, from: nat, c: char): (r: Option<nat>)
    requires from <= |s|
    ensures r.Some? ==> from <= r.value < |s| && s[r.value] == c && c !in s[from..r.value]
    ensures r.None? ==> c !in s[from..]
    decreases |s| - from
  {
    if from == |s| then None
    else if s[from] == c then Some(from)
    else
      var r := StrChr(s, from + 1, c);
      assert s[from..] == [s[from]] + s[from + 1..];
      assert r.Some? ==> s[from..r.value] == [s[from]] + s[from + 1..r.value];
      r
  }

  // ---------------------------------------------------------------------------
  // The PATH search

  /** The directories the search loop of runtime.c:411-433 visits, in order:
      the pieces between ':'s. An empty piece is kept, except after a final
      ':', where the loop stops because it has reached the end of PATH. */
  function Segments(p: string): (ds: seq<string>)
    ensures p == [] <==> ds == []
    decreases |p|
  {
    if p == [] then []
    else match StrChr(p, 0, ':')
      case None => [p]
      case Some(c) => [p[..c]] + Segments(p[c + 1..])
  }

  /** The segments joined again with ':' between them. */
  function Join(ds: seq<string>): string
  {
    if ds == [] then []
    else if |ds| == 1 then ds[0]
    else ds[0] + ":" + Join(ds[1..])
  }

  /** No segment holds a ':'. */
  lemma {:induction false} SegmentsHaveNoColon(p: string)
    ensures forall d :: d in Segments(p) ==> ':' !in d
    decreases |p|
  {
    if p != [] {
      match StrChr(p, 0, ':')
      case None =>
        assert p[0..] == p;
      case Some(c) =>
        assert p[0..c] == p[..c];
        SegmentsHaveNoColon(p[c + 1..]);
    }
  }

  /** PATH cut at a ':' at position c: the parts around it, and its last
      character, which is the last of the part after it if there is one. */
  lemma SplitAtColon(p: string, c: nat)
    requires c < |p| && p[c] == ':'
    ensures p == p[..c] + ":" + p[c + 1..]
    ensures p[c + 1..] == [] ==> p[|p| - 1] == ':' && p[..|p| - 1] == p[..c]
    ensures var rest := p[c + 1..];
      rest != [] ==> p[|p| - 1] == rest[|rest| - 1] && p[..|p| - 1] == p[..c] + ":" + rest[..|rest| - 1]
  {
    assert p == p[..c] + ":" + p[c + 1..];
  }

  /** Joining one more segment puts a ':' before the rest. */
  lemma JoinCons(d: string, ds: seq<string>)
    requires ds != []
    ensures Join([d] + ds) == d + ":" + Join(ds)
  {
    assert ([d] + ds)[1..] == ds;
  }

  /** Joining the segments gives PATH back, less a final ':'. */
  lemma {:induction false} SegmentsJoin(p: string)
    ensures Join(Segments(p)) == if p != [] && p[|p| - 1] == ':' then p[..|p| - 1] else p
    decreases |p|
  {
    if p != [] {
      match StrChr(p, 0, ':')
      case None =>
      case Some(c) =>
        var rest := p[c + 1..];
        assert Segments(p) == [p[..c]] + Segments(rest);
        SplitAtColon(p, c);
        SegmentsJoin(rest);
        if rest != [] {
          JoinCons(p[..c], Segments(rest));
        }
    }
  }

  /** The path the loop tries for directory d (runtime.c:423-425). */
  function Candidate(d: string, argv0: string): string
  {
    d + "/" + argv0
  }

  /** The first candidate that passes the test, in the order of ds. */
  function Search(ds: seq<string>, argv0: string, runnable: string -> bool): Option<string>
  {
    if ds == [] then None
    else if runnable(Candidate(ds[0], argv0)) then Some(Candidate(ds[0], argv0))
    else Search(ds[1..], argv0, runnable)
  }

  /** Search finds a candidate that passes, and every candidate before it
      fails; it finds nothing only when every candidate fails. */
  lemma {:induction false} SearchIsFirst(ds: seq<string>, argv0: string, runnable: string -> bool)
    ensures var r := Search(ds, argv0, runnable);
      && (r.Some? ==> exists i :: (0 <= i < |ds| && r.value == Candidate(ds[i], argv0) && runnable(r.value)
            && forall j :: 0 <= j < i ==> !runnable(Candidate(ds[j], argv0))))
      && (r.None? ==> forall i :: 0 <= i < |ds| ==> !runnable(Candidate(ds[i], argv0)))
  {
    if ds != [] && !runnable(Candidate(ds[0], argv0)) {
      var r := Search(ds[1..], argv0, runnable);
      SearchIsFirst(ds[1..], argv0, runnable);
      assert forall i :: 1 <= i < |ds| ==> ds[i] == ds[1..][i - 1];
      if r.Some? {
        var i :| 0 <= i < |ds[1..]| && r.value == Candidate(ds[1..][i], argv0) && runnable(r.value)
          && forall j :: 0 <= j < i ==> !runnable(Candidate(ds[1..][j], argv0));
        assert forall j :: 0 <= j < i + 1 ==> !runnable(Candidate(ds[j], argv0));
      }
    }
  }

  /** What ResolveExternalCmd finds for argv[0], with `path` the value of
      getenv("PATH"): a name holding '/' is taken as it is, if it passes the
      test (runtime.c:399-408); with no PATH there is nothing (409-410); otherwise
      it is the first candidate of the PATH segments that passes (411-434). */
  function Resolve(argv0: string, path: Option<string>, runnable: string -> bool): Option<string>
  {
    if StrChr(argv0, 0, '/').Some? then (if runnable(argv0) then Some(argv0) else None)
    else if path.None? then None
    else Search(Segments(path.value), argv0, runnable)
  }

  /** A command holding a '/' is never searched on PATH: it resolves to itself
      or to nothing, whatever PATH is. */
  lemma SlashIsNotSearched(argv0: string, path: Option<string>, runnable: string -> bool)
    requires '/' in argv0
    ensures Resolve(argv0, path, runnable) == if runnable(argv0) then Some(argv0) else None
  {
    assert argv0[0..] == argv0;
  }

  /** Otherwise the result is a candidate d + "/" + argv0 for a segment d of
      PATH that passes the test, and every earlier segment's candidate fails;
      no result means no candidate passes. */
  lemma ResolveIsFirstRunnable(argv0: string, p: string, runnable: string -> bool)
    requires '/' !in argv0
    ensures var r, ds := Resolve(argv0, Some(p), runnable), Segments(p);
      && (r.Some? ==> exists i :: (0 <= i < |ds| && r.value == ds[i] + "/" + argv0 && runnable(r.value)
            && forall j :: 0 <= j < i ==> !runnable(ds[j] + "/" + argv0)))
      && (r.None? ==> forall i :: 0 <= i < |ds| ==> !runnable(ds[i] + "/" + argv0))
  {
    assert argv0[0..] == argv0;
    assert Resolve(argv0, Some(p), runnable) == Search(Segments(p), argv0, runnable);
    SearchIsFirst(Segments(p), argv0, runnable);
  }

  /** strchr on a suffix finds the same character, shifted. */
  lemma {:induction false} StrChrShift(s: string, i: nat, from: nat, c: char)
    requires i <= from <= |s|
    ensures var r := StrChr(s, from, c);
      StrChr(s[i..], from - i, c) == if r.None? then None else Some(r.value - i)
    decreases |s| - from
  {
    if from < |s| {
      assert s[i..][from - i] == s[from];
      StrChrShift(s, i, from + 1, c);
    }
  }

  /** The segments from position i on, for i at the start of a segment: the
      piece up to the next ':' (or the end), then the segments after it. */
  lemma SegmentsFrom(p: string, i: nat)
    requires i < |p|
    ensures var c := StrChr(p, i, ':');
      Segments(p[i..]) == if c.None? then [p[i..]] else [p[i..c.value]] + Segments(p[c.value + 1..])
  {
    StrChrShift(p, i, i, ':');
    var c := StrChr(p, i, ':');
    if c.Some? {
      var k := c.value;
      assert p[i..][..k - i] == p[i..k];
      assert p[i..][k - i + 1..] == p[k + 1..];
    }
  }

  /** The first candidate of [d] + ds is d's, if it passes. */
  lemma SearchCons(d: string, ds: seq<string>, argv0: string, runnable: string -> bool)
    ensures Search([d] + ds, argv0, runnable) ==
      if runnable(Candidate(d, argv0)) then Some(Candidate(d, argv0)) else Search(ds, argv0, runnable)
  {
    assert ([d] + ds)[1..] == ds;
  }

  /** One turn of the search loop from position i: the segment there is
      tried first, then the segments after the ':' that ends it. */
  lemma SearchFrom(p: string, i: nat, argv0: string, runnable: string -> bool)
    requires i < |p|
    ensures var c := StrChr(p, i, ':');
      var d := p[i..if c.None? then |p| else c.value];
      var next := if c.None? then |p| else c.value + 1;
      Search(Segments(p[i..]), argv0, runnable) ==
        if runnable(Candidate(d, argv0)) then Some(Candidate(d, argv0)) else Search(Segments(p[next..]), argv0, runnable)
  {
    SegmentsFrom(p, i);
    var c := StrChr(p, i, ':');
    if c.None? {
      assert Segments(p[|p|..]) == [] && p[i..|p|] == p[i..];
      SearchCons(p[i..], [], argv0, runnable);
    } else {
      SearchCons(p[i..c.value], Segments(p[c.value + 1..]), argv0, runnable);
    }
  }

  /** The copy loops of runtime.c:415-416 and 420-421: the characters
      p[lo..hi], one by one, into the buffer. */
  method CopyRange(p: string, lo: nat, hi: nat) returns (buf: string)
    requires lo <= hi <= |p|
    ensures buf == p[lo..hi]
  {
    buf := [];
    var i := lo;
    while i < hi
      invariant lo <= i <= hi && buf == p[lo..i]
      decreases hi - i
    {
      assert p[lo..i + 1] == p[lo..i] + [p[i]];
      buf := buf + [p[i]];
      i := i + 1;
    }
  }

  /** One turn of the PATH loop (runtime.c:412-426): the segment at i is
      copied into the buffer and "/" and argv0 appended, giving the candidate;
      the search goes on after the ':' that ends the segment. */
  method NextCandidate(p: string, i: nat, argv0: string, ghost runnable: string -> bool)
    returns (cand: string, next: nat)
    requires i < |p|
    ensures var c := StrChr(p, i, ':');
      && cand == Candidate(p[i..if c.None? then |p| else c.value], argv0)
      && next == if c.None? then |p| else c.value + 1
    ensures i < next <= |p|
    ensures Search(Segments(p[i..]), argv0, runnable) ==
      if runnable(cand) then Some(cand) else Search(Segments(p[next..]), argv0, runnable)
  {
    SearchFrom(p, i, argv0, runnable);
    var c := StrChr(p, i, ':');
    var buf: string;
    if c.Some? {
      buf := CopyRange(p, i, c.value);
      next := c.value + 1;
    } else {
      buf := CopyRange(p, i, |p|);
      next := |p|;
    }
    cand := buf + "/" + argv0;
  }

  /** The PATH loop of ResolveExternalCmd (runtime.c:411-434): it stops at the
      first candidate that passes. */
  method SearchPath(p: string, argv0: string, runnable: string -> bool) returns (name: Option<string>)
    ensures name == Search(Segments(p), argv0, runnable)
  {
    var i := 0;
    assert p[0..] == p;
    while i < |p|
      invariant i <= |p|
      invariant Search(Segments(p), argv0, runnable) == Search(Segments(p[i..]), argv0, runnable)
      decreases |p| - i
    {
      var cand;
      cand, i := NextCandidate(p, i, argv0, runnable);
      if runnable(cand) {
        return Some(cand);
      }
    }
    assert p[i..] == [];
    return None;
  }

  /** ResolveExternalCmd: the result is the name stored into cmd->name, or
      None for a FALSE return. */
  method ResolveExternalCmd(argv0: string, path: Option<string>, runnable: string -> bool)
    returns (name: Option<string>)
    ensures name == Resolve(argv0, path, runnable)
  {
    if StrChr(argv0, 0, '/').Some? {
      if runnable(argv0) {
        return Some(argv0);
      }
      return None;
    }
    if path.None? {
      return None;
    }
    name := SearchPath(path.value, argv0, runnable);
  }
}
