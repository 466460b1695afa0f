/** Family assignment of an empirical pedigree: the connected components of
    the graph whose vertices are the interned persons and whose edges are
    the accepted kinship entries, found by a breadth-first search that
    numbers families in the order of their lowest-index member. Persons
    are addressed by their 0-based index; a person's sequential id is that
    index plus one. */
module Families {
  import opened PedigreeData

  // ---------------------------------------------------------------------
  // The graph

  /** Entry `e` joins the persons at indexes `u` and `v`, in either order. */
  predicate Joins(e: KinshipEntry, u: int, v: int) {
    (e.id1 == u + 1 && e.id2 == v + 1) || (e.id2 == u + 1 && e.id1 == v + 1)
  }

  /** The `other` of the search: the sequential id at the far end of `e`
      from the person whose sequential id is `id`, or -1. */
  function Other(e: KinshipEntry, id: int): int {
    if e.id1 == id then e.id2 else if e.id2 == id then e.id1 else -1
  }

  lemma OtherJoins(e: KinshipEntry, cur: int)
    requires Other(e, cur + 1) != -1
    ensures Joins(e, cur, Other(e, cur + 1) - 1)
  {
  }

  lemma JoinsOther(e: KinshipEntry, cur: int, v: int)
    requires Joins(e, cur, v)
    ensures Other(e, cur + 1) == v + 1
  {
  }

  ghost predicate Adjacent(K: seq<KinshipEntry>, u: int, v: int) {
    exists j :: 0 <= j < |K| && Joins(K[j], u, v)
  }

  /** `path` leads from `u` to `v` along entries of `K`. */
  ghost predicate IsPath(K: seq<KinshipEntry>, path: seq<int>, u: int, v: int) {
    && |path| > 0 && path[0] == u && path[|path| - 1] == v
    && forall i :: 0 <= i < |path| - 1 ==> Adjacent(K, path[i], path[i + 1])
  }

  /** `u` and `v` are linked by a chain of entries of `K`. */
  ghost predicate Connected(K: seq<KinshipEntry>, u: int, v: int) {
    exists path :: IsPath(K, path, u, v)
  }

  /** Every person's sequential id is its index plus one. */
  predicate Sequential(people: seq<EmpiricalPerson>) {
    forall p :: 0 <= p < |people| ==> people[p].sequentialId == p + 1
  }

  /** Every entry names two of the `n` persons. */
  predicate EntriesInRange(K: seq<KinshipEntry>, n: int) {
    forall j :: 0 <= j < |K| ==> 1 <= K[j].id1 <= n && 1 <= K[j].id2 <= n
  }

  /** Two person lists differ at most in their family numbers. */
  predicate SamePersons(a: seq<EmpiricalPerson>, b: seq<EmpiricalPerson>) {
    |a| == |b| && forall p :: 0 <= p < |a| ==> a[p].originalId == b[p].originalId && a[p].sequentialId == b[p].sequentialId
  }

  // ---------------------------------------------------------------------
  // The state of the search

  /** The persons with the family numbers given so far, the `visited`
      flags, the queue of the current family and the number of families
      opened. */
  datatype Search = Search(people: seq<EmpiricalPerson>, visited: seq<bool>, queue: seq<int>, nfamilies: int)

  /** What the proof tracks beside the search: the first member (root) of
      each family, a path from its root to every visited person, and the
      persons whose entries have all been scanned. */
  datatype Trace = Trace(roots: seq<int>, paths: map<int, seq<int>>, done: set<int>)

  /** A person is visited exactly when it has a family number, and no
      number exceeds the families opened. */
  ghost predicate Marked(s: Search) {
    && |s.visited| == |s.people| && Sequential(s.people) && s.nfamilies >= 0
    && forall p :: 0 <= p < |s.people| ==>
         (s.visited[p] <==> s.people[p].familyId > 0) && 0 <= s.people[p].familyId <= s.nfamilies
  }

  /** Family k+1 starts at `roots[k]`, roots increase, and no member of a
      family comes before its root. */
  ghost predicate Rooted(s: Search, roots: seq<int>) {
    && |roots| == s.nfamilies && |s.visited| == |s.people|
    && (forall k :: 0 <= k < |roots| ==>
          0 <= roots[k] < |s.people| && s.visited[roots[k]] && s.people[roots[k]].familyId == k + 1)
    && (forall k, l :: 0 <= k < l < |roots| ==> roots[k] < roots[l])
    && (forall p, k :: 0 <= p < |s.people| && 0 <= k < |roots| && s.visited[p] && s.people[p].familyId == k + 1 ==>
          roots[k] <= p)
  }

  /** Every visited person is reached from the root of its family. */
  ghost predicate Reached(K: seq<KinshipEntry>, s: Search, roots: seq<int>, paths: map<int, seq<int>>) {
    && |s.visited| == |s.people|
    && (forall p :: 0 <= p < |s.people| && s.visited[p] ==> 1 <= s.people[p].familyId <= |roots| && p in paths)
    && forall p, k {:trigger paths[p], roots[k]} ::
         0 <= p < |s.people| && 0 <= k < |roots| && s.visited[p] && s.people[p].familyId == k + 1 ==>
         IsPath(K, paths[p], roots[k], p)
  }

  /** Every neighbour of a finished person is visited, in its family. */
  ghost predicate Closed(K: seq<KinshipEntry>, s: Search, done: set<int>) {
    && |s.visited| == |s.people|
    && forall j, u, v {:trigger Joins(K[j], u, v)} ::
         0 <= j < |K| && u in done && 0 <= u < |s.people| && Joins(K[j], u, v) && 0 <= v < |s.people| ==>
         s.visited[v] && s.people[v].familyId == s.people[u].familyId
  }

  /** The queue holds distinct, visited, unfinished members of the current
      family, and every visited person is finished, queued, or `cur` (the
      person whose entries are being scanned, -1 for none). */
  ghost predicate Frontier(s: Search, done: set<int>, cur: int) {
    && |s.visited| == |s.people|
    && (forall u :: u in done ==> 0 <= u < |s.people| && s.visited[u])
    && (forall i :: 0 <= i < |s.queue| ==>
          && 0 <= s.queue[i] < |s.people| && s.visited[s.queue[i]]
          && s.people[s.queue[i]].familyId == s.nfamilies && s.queue[i] !in done && s.queue[i] != cur)
    && (forall i, j :: 0 <= i < j < |s.queue| ==> s.queue[i] != s.queue[j])
    && (forall p :: 0 <= p < |s.people| && s.visited[p] ==> p in done || p in s.queue || p == cur)
  }

  /** Everything before the root of the current family is visited. */
  ghost predicate Below(s: Search, root: int) {
    forall p :: 0 <= p < root && p < |s.visited| ==> s.visited[p]
  }

  ghost predicate Valid(K: seq<KinshipEntry>, s: Search, t: Trace, cur: int) {
    Marked(s) && Rooted(s, t.roots) && Reached(K, s, t.roots, t.paths) && Closed(K, s, t.done) && Frontier(s, t.done, cur)
  }

  /** The number of persons not yet visited. */
  function Unvisited(visited: seq<bool>): nat {
    if visited == [] then 0 else (if visited[0] then 0 else 1) + Unvisited(visited[1..])
  }

  lemma {:induction false} UnvisitedMark(visited: seq<bool>, p: int)
    requires 0 <= p < |visited| && !visited[p]
    ensures Unvisited(visited[p := true]) == Unvisited(visited) - 1
  {
    if p > 0 {
      assert visited[p := true][1..] == visited[1..][p - 1 := true];
      UnvisitedMark(visited[1..], p - 1);
    }
  }

  // ---------------------------------------------------------------------
  // One visit

  /** The effect of `visited[p] = true; people[p].family_id = nfamilies;
      q.push(p)`. */
  function Visit(s: Search, p: int): (r: Search)
    requires 0 <= p < |s.people| && |s.visited| == |s.people|
  {
    Search(s.people[p := s.people[p].(familyId := s.nfamilies)], s.visited[p := true], s.queue + [p], s.nfamilies)
  }

  /** Visiting an unvisited neighbour `p` of `cur` through entry `k` keeps
      the invariant. */
  lemma VisitKeeps(K: seq<KinshipEntry>, s: Search, t: Trace, cur: int, k: int, p: int)
    requires Valid(K, s, t, cur) && EntriesInRange(K, |s.people|)
    requires 0 <= cur < |s.people| && s.visited[cur] && s.people[cur].familyId == s.nfamilies >= 1
    requires 0 <= p < |s.people| && !s.visited[p] && 0 <= k < |K| && Joins(K[k], cur, p)
    requires Below(s, t.roots[s.nfamilies - 1])
    ensures Valid(K, Visit(s, p), t.(paths := t.paths[p := t.paths[cur] + [p]]), cur)
  {
    VisitMarked(s, p);
    VisitRooted(s, t.roots, p);
    VisitReached(K, s, t.roots, t.paths, cur, k, p);
    VisitClosed(K, s, t.done, cur, p);
    VisitFrontier(s, t.done, cur, p);
  }

  lemma VisitMarked(s: Search, p: int)
    requires Marked(s) && 0 <= p < |s.people| && !s.visited[p] && s.nfamilies >= 1
    ensures Marked(Visit(s, p))
  {
  }

  lemma VisitRooted(s: Search, roots: seq<int>, p: int)
    requires Marked(s) && Rooted(s, roots) && 0 <= p < |s.people| && !s.visited[p] && s.nfamilies >= 1
    requires Below(s, roots[s.nfamilies - 1])
    ensures Rooted(Visit(s, p), roots)
  {
    var s' := Visit(s, p);
    forall k | 0 <= k < |roots|
      ensures roots[k] != p
    {
    }
    forall q, k | 0 <= q < |s'.people| && 0 <= k < |roots| && s'.visited[q] && s'.people[q].familyId == k + 1
      ensures roots[k] <= q
    {
      if q != p {
        assert s.visited[q] && s'.people[q] == s.people[q];
      }
    }
  }

  lemma VisitReached(K: seq<KinshipEntry>, s: Search, roots: seq<int>, paths: map<int, seq<int>>, cur: int, k: int, p: int)
    requires Marked(s) && Reached(K, s, roots, paths) && |roots| == s.nfamilies
    requires 0 <= cur < |s.people| && s.visited[cur] && s.people[cur].familyId == s.nfamilies >= 1
    requires 0 <= p < |s.people| && !s.visited[p] && 0 <= k < |K| && Joins(K[k], cur, p)
    ensures Reached(K, Visit(s, p), roots, paths[p := paths[cur] + [p]])
  {
    var s' := Visit(s, p);
    var paths' := paths[p := paths[cur] + [p]];
    ExtendPath(K, paths[cur], roots[s.nfamilies - 1], cur, k, p);
    forall q, l | 0 <= q < |s'.people| && 0 <= l < |roots| && s'.visited[q] && s'.people[q].familyId == l + 1
      ensures IsPath(K, paths'[q], roots[l], q)
    {
      if q != p {
        assert s'.people[q] == s.people[q] && s.visited[q];
      }
    }
  }

  lemma ExtendPath(K: seq<KinshipEntry>, path: seq<int>, u: int, v: int, k: int, w: int)
    requires IsPath(K, path, u, v) && 0 <= k < |K| && Joins(K[k], v, w)
    ensures IsPath(K, path + [w], u, w)
  {
    var path' := path + [w];
    forall i | 0 <= i < |path'| - 1
      ensures Adjacent(K, path'[i], path'[i + 1])
    {
      if i < |path| - 1 {
        assert path'[i] == path[i] && path'[i + 1] == path[i + 1];
      } else {
        assert path'[i] == v && path'[i + 1] == w;
        assert Joins(K[k], path'[i], path'[i + 1]);
      }
    }
  }

  lemma VisitClosed(K: seq<KinshipEntry>, s: Search, done: set<int>, cur: int, p: int)
    requires Marked(s) && Closed(K, s, done) && Frontier(s, done, cur) && 0 <= p < |s.people| && !s.visited[p]
    ensures Closed(K, Visit(s, p), done)
  {
    var s' := Visit(s, p);
    forall j, u, v | 0 <= j < |K| && u in done && 0 <= u < |s'.people| && Joins(K[j], u, v) && 0 <= v < |s'.people|
      ensures s'.visited[v] && s'.people[v].familyId == s'.people[u].familyId
    {
      assert s.visited[v] && s.visited[u];
      assert u != p && v != p;
    }
  }

  lemma VisitFrontier(s: Search, done: set<int>, cur: int, p: int)
    requires Marked(s) && Frontier(s, done, cur)
    requires 0 <= p < |s.people| && !s.visited[p] && s.nfamilies >= 1 && p != cur
    ensures Frontier(Visit(s, p), done, cur)
  {
    var s' := Visit(s, p);
    assert p !in done;
    forall i | 0 <= i < |s.queue|
      ensures s.queue[i] != p
    {
      assert s.visited[s.queue[i]];
    }
    forall q | 0 <= q < |s'.people| && s'.visited[q]
      ensures q in done || q in s'.queue || q == cur
    {
      if q == p {
        assert s'.queue[|s.queue|] == p;
      } else {
        assert s.visited[q];
        if q in s.queue {
          var i :| 0 <= i < |s.queue| && s.queue[i] == q;
          assert s'.queue[i] == q;
        }
      }
    }
    forall i | 0 <= i < |s'.queue|
      ensures s'.people[s'.queue[i]].familyId == s'.nfamilies
    {
      if i < |s.queue| {
        assert s'.queue[i] == s.queue[i] != p;
      }
    }
  }

  /** A visited neighbour of `cur` already belongs to the current family. */
  lemma VisitedNeighbour(K: seq<KinshipEntry>, s: Search, t: Trace, cur: int, k: int, v: int)
    requires Valid(K, s, t, cur)
    requires 0 <= cur < |s.people| && s.people[cur].familyId == s.nfamilies
    requires 0 <= k < |K| && 0 <= v < |s.people| && Joins(K[k], cur, v) && s.visited[v]
    ensures s.people[v].familyId == s.nfamilies
  {
    if v in t.done {
      assert Joins(K[k], v, cur);
    } else if v in s.queue {
      var i :| 0 <= i < |s.queue| && s.queue[i] == v;
    }
  }

  /** Taking the front of the queue as `cur`. */
  lemma PopKeeps(K: seq<KinshipEntry>, s: Search, t: Trace)
    requires Valid(K, s, t, -1) && s.queue != []
    ensures Valid(K, s.(queue := s.queue[1..]), t, s.queue[0])
  {
    var s' := s.(queue := s.queue[1..]);
    var cur := s.queue[0];
    forall i | 0 <= i < |s'.queue|
      ensures s'.queue[i] != cur
    {
      assert s.queue[i + 1] != s.queue[0];
    }
    forall p | 0 <= p < |s.people| && s.visited[p] && p in s.queue && p != cur
      ensures p in s'.queue
    {
      var i :| 0 <= i < |s.queue| && s.queue[i] == p;
      assert s'.queue[i - 1] == p;
    }
  }

  /** Once every neighbour of `cur` is in the current family, `cur` is done. */
  lemma FinishKeeps(K: seq<KinshipEntry>, s: Search, t: Trace, cur: int)
    requires Valid(K, s, t, cur)
    requires 0 <= cur < |s.people| && s.visited[cur] && s.people[cur].familyId == s.nfamilies
    requires Scanned(K, s, cur, |K|)
    ensures Valid(K, s, t.(done := t.done + {cur}), -1)
  {
  }

  /** The state after `nfamilies++; q.push(i); visited[i] = true;
      people[i].family_id = nfamilies`. */
  function Start(s: Search, i: int): Search
    requires 0 <= i < |s.people| && |s.visited| == |s.people|
  {
    Visit(s.(nfamilies := s.nfamilies + 1), i)
  }

  /** Opening family `nfamilies + 1` at the unvisited person `i`. */
  lemma StartKeeps(K: seq<KinshipEntry>, s: Search, t: Trace, i: int)
    requires Valid(K, s, t, -1) && s.queue == []
    requires 0 <= i < |s.people| && !s.visited[i] && Below(s, i)
    requires forall k :: 0 <= k < |t.roots| ==> t.roots[k] < i
    ensures Valid(K, Start(s, i), Trace(t.roots + [i], t.paths[i := [i]], t.done), -1)
    ensures Below(Start(s, i), i)
  {
    StartRooted(s, t.roots, i);
    StartReached(K, s, t.roots, t.paths, i);
    StartClosed(K, s, t.done, i);
  }

  lemma StartRooted(s: Search, roots: seq<int>, i: int)
    requires Marked(s) && Rooted(s, roots)
    requires 0 <= i < |s.people| && !s.visited[i]
    requires forall k :: 0 <= k < |roots| ==> roots[k] < i
    ensures Rooted(Start(s, i), roots + [i])
  {
    var s' := Start(s, i);
    var roots' := roots + [i];
    forall p, k | 0 <= p < |s'.people| && 0 <= k < |roots'| && s'.visited[p] && s'.people[p].familyId == k + 1
      ensures roots'[k] <= p
    {
      if p != i {
        assert s.visited[p] && s'.people[p] == s.people[p];
        assert k < |roots|;
      }
    }
  }

  lemma StartReached(K: seq<KinshipEntry>, s: Search, roots: seq<int>, paths: map<int, seq<int>>, i: int)
    requires Marked(s) && Reached(K, s, roots, paths) && |roots| == s.nfamilies
    requires 0 <= i < |s.people| && !s.visited[i]
    ensures Reached(K, Start(s, i), roots + [i], paths[i := [i]])
  {
    var s' := Start(s, i);
    var roots' := roots + [i];
    var paths' := paths[i := [i]];
    forall p, k | 0 <= p < |s'.people| && 0 <= k < |roots'| && s'.visited[p] && s'.people[p].familyId == k + 1
      ensures IsPath(K, paths'[p], roots'[k], p)
    {
      if p != i {
        assert s.visited[p] && s'.people[p] == s.people[p];
      }
    }
  }

  lemma StartClosed(K: seq<KinshipEntry>, s: Search, done: set<int>, i: int)
    requires Marked(s) && Closed(K, s, done) && Frontier(s, done, -1)
    requires 0 <= i < |s.people| && !s.visited[i]
    ensures Closed(K, Start(s, i), done)
  {
    var s' := Start(s, i);
    forall j, u, v | 0 <= j < |K| && u in done && 0 <= u < |s'.people| && Joins(K[j], u, v) && 0 <= v < |s'.people|
      ensures s'.visited[v] && s'.people[v].familyId == s'.people[u].familyId
    {
      assert s.visited[v] && s.visited[u];
      assert u != i && v != i;
    }
  }

  /** What is promised of a whole family search. */
  ghost predicate Grows(s: Search, s': Search) {
    && |s.visited| == |s.people| && |s'.visited| == |s'.people|
    && SamePersons(s.people, s'.people) && s'.nfamilies == s.nfamilies
    && forall q :: 0 <= q < |s.people| && s.visited[q] ==> s'.visited[q] && s'.people[q].familyId == s.people[q].familyId
  }

  /** A visit extends the search and leaves the work still to do unchanged. */
  lemma VisitGrows(s0: Search, s: Search, p: int, root: int)
    requires Grows(s0, s) && 0 <= p < |s.people| && !s.visited[p]
    ensures Grows(s0, Visit(s, p)) && Pending(Visit(s, p)) == Pending(s)
    ensures Below(s, root) ==> Below(Visit(s, p), root)
  {
    UnvisitedMark(s.visited, p);
  }

  /** The work still to do: queued persons plus persons never visited. */
  function Pending(s: Search): nat {
    |s.queue| + Unvisited(s.visited)
  }

  // ---------------------------------------------------------------------
  // The search

  /** The invariant of the loop over `p` in VisitMatching. */
  ghost predicate MatchLoop(K: seq<KinshipEntry>, s0: Search, t0: Trace, cur: int, k: int, other: int,
                            s: Search, t: Trace, p: int) {
    && MatchSetup(K, s0, t0, cur, k, other)
    && |s.people| == |s0.people| && 0 <= p <= |s.people|
    && Valid(K, s, t, cur) && Grows(s0, s) && Pending(s) == Pending(s0)
    && t.roots == t0.roots && t.done == t0.done && Below(s, t0.roots[s0.nfamilies - 1])
    && (other - 1 < p ==> s.visited[other - 1] && s.people[other - 1].familyId == s0.nfamilies)
  }

  /** What VisitMatching starts from and does not change. */
  ghost predicate MatchSetup(K: seq<KinshipEntry>, s0: Search, t0: Trace, cur: int, k: int, other: int) {
    && |t0.roots| == s0.nfamilies >= 1 && 0 <= cur < |s0.people| && 1 <= other <= |s0.people|
    && 0 <= k < |K| && Joins(K[k], cur, other - 1) && EntriesInRange(K, |s0.people|)
    && |s0.visited| == |s0.people| && s0.visited[cur] && s0.people[cur].familyId == s0.nfamilies
  }

  lemma MatchVisit(K: seq<KinshipEntry>, s0: Search, t0: Trace, cur: int, k: int, other: int, s: Search, t: Trace, p: int)
    requires MatchLoop(K, s0, t0, cur, k, other, s, t, p) && p < |s.people|
    requires s.people[p].sequentialId == other && !s.visited[p]
    ensures MatchLoop(K, s0, t0, cur, k, other, Visit(s, p), t.(paths := t.paths[p := t.paths[cur] + [p]]), p + 1)
  {
    VisitKeeps(K, s, t, cur, k, p);
    VisitGrows(s0, s, p, t0.roots[s0.nfamilies - 1]);
  }

  lemma MatchSkip(K: seq<KinshipEntry>, s0: Search, t0: Trace, cur: int, k: int, other: int, s: Search, t: Trace, p: int)
    requires MatchLoop(K, s0, t0, cur, k, other, s, t, p) && p < |s.people|
    requires !(s.people[p].sequentialId == other && !s.visited[p])
    ensures MatchLoop(K, s0, t0, cur, k, other, s, t, p + 1)
  {
    if p == other - 1 {
      VisitedNeighbour(K, s, t, cur, k, p);
    }
  }

  /** The loop over `p` that visits the person whose sequential id is
      `other`, the far end of entry `k` from `cur`. */
  method VisitMatching(K: seq<KinshipEntry>, s0: Search, ghost t0: Trace, cur: int, k: int, other: int)
      returns (s: Search, ghost t: Trace)
    requires Valid(K, s0, t0, cur) && EntriesInRange(K, |s0.people|)
    requires 0 <= cur < |s0.people| && s0.visited[cur] && s0.people[cur].familyId == s0.nfamilies >= 1
    requires Below(s0, t0.roots[s0.nfamilies - 1])
    requires 0 <= k < |K| && other == Other(K[k], cur + 1) && other != -1
    ensures Valid(K, s, t, cur) && Grows(s0, s) && Pending(s) == Pending(s0)
    ensures t.roots == t0.roots && t.done == t0.done && Below(s, t0.roots[s0.nfamilies - 1])
    ensures 1 <= other <= |s.people| && s.visited[other - 1] && s.people[other - 1].familyId == s0.nfamilies
  {
    OtherJoins(K[k], cur);
    s, t := s0, t0;
    var p := 0;
    while p < |s.people|
      invariant MatchLoop(K, s0, t0, cur, k, other, s, t, p)
      decreases |s.people| - p
    {
      if s.people[p].sequentialId == other && !s.visited[p] {
        MatchVisit(K, s0, t0, cur, k, other, s, t, p);
        t := t.(paths := t.paths[p := t.paths[cur] + [p]]);
        s := Visit(s, p);
      } else {
        MatchSkip(K, s0, t0, cur, k, other, s, t, p);
      }
      p := p + 1;
    }
  }

  /** The invariant of the loop over the entries in ScanEntries. */
  ghost predicate ScanLoop(K: seq<KinshipEntry>, s0: Search, t0: Trace, cur: int, s: Search, t: Trace, k: int) {
    && |t0.roots| == s0.nfamilies >= 1 && 0 <= cur < |s0.people| && EntriesInRange(K, |s0.people|)
    && 0 <= k <= |K| && |s.people| == |s0.people|
    && Valid(K, s, t, cur) && Grows(s0, s) && Pending(s) == Pending(s0)
    && s0.visited[cur] && s0.people[cur].familyId == s0.nfamilies
    && t.roots == t0.roots && t.done == t0.done && Below(s, t0.roots[s0.nfamilies - 1])
    && Scanned(K, s, cur, k)
  }

  lemma ScanStep(K: seq<KinshipEntry>, s0: Search, t0: Trace, cur: int, before: Search, tb: Trace,
                 s: Search, t: Trace, k: int, other: int)
    requires ScanLoop(K, s0, t0, cur, before, tb, k) && k < |K| && other == Other(K[k], cur + 1)
    requires other == -1 ==> s == before && t == tb
    requires other != -1 ==> && Valid(K, s, t, cur) && Grows(before, s) && Pending(s) == Pending(before)
                             && t.roots == tb.roots && t.done == tb.done && Below(s, t0.roots[s0.nfamilies - 1])
                             && 1 <= other <= |s.people| && s.visited[other - 1]
                             && s.people[other - 1].familyId == before.nfamilies
    ensures ScanLoop(K, s0, t0, cur, s, t, k + 1)
  {
    if other != -1 {
      GrowsTrans(s0, before, s);
    }
    ScannedStep(K, before, s, cur, k, other);
  }

  /** The loop over the kinship entries for the person `cur`. */
  method ScanEntries(K: seq<KinshipEntry>, s0: Search, ghost t0: Trace, cur: int) returns (s: Search, ghost t: Trace)
    requires Valid(K, s0, t0, cur) && EntriesInRange(K, |s0.people|)
    requires 0 <= cur < |s0.people| && s0.visited[cur] && s0.people[cur].familyId == s0.nfamilies >= 1
    requires Below(s0, t0.roots[s0.nfamilies - 1])
    ensures Valid(K, s, t, cur) && Grows(s0, s) && Pending(s) == Pending(s0)
    ensures t.roots == t0.roots && t.done == t0.done && Below(s, t0.roots[s0.nfamilies - 1])
    ensures Scanned(K, s, cur, |K|)
  {
    s, t := s0, t0;
    for k := 0 to |K|
      invariant ScanLoop(K, s0, t0, cur, s, t, k)
    {
      var other := Other(K[k], s.people[cur].sequentialId);
      ghost var before, tb := s, t;
      if other != -1 {
        s, t := VisitMatching(K, s, t, cur, k, other);
      }
      ScanStep(K, s0, t0, cur, before, tb, s, t, k, other);
    }
  }

  /** Every person joined to `cur` by one of the first `k` entries is in the
      current family. */
  ghost predicate Scanned(K: seq<KinshipEntry>, s: Search, cur: int, k: int) {
    && |s.visited| == |s.people|
    && forall j, v {:trigger Joins(K[j], cur, v)} :: 0 <= j < k && j < |K| && 0 <= v < |s.people| && Joins(K[j], cur, v) ==>
         s.visited[v] && s.people[v].familyId == s.nfamilies
  }

  lemma ScannedStep(K: seq<KinshipEntry>, before: Search, s: Search, cur: int, k: int, other: int)
    requires Scanned(K, before, cur, k) && 0 <= k < |K| && other == Other(K[k], cur + 1)
    requires before == s || Grows(before, s)
    requires other != -1 ==> 1 <= other <= |s.people| && s.visited[other - 1] && s.people[other - 1].familyId == s.nfamilies
    ensures Scanned(K, s, cur, k + 1)
  {
    forall j, v | 0 <= j < k + 1 && 0 <= v < |s.people| && Joins(K[j], cur, v)
      ensures s.visited[v] && s.people[v].familyId == s.nfamilies
    {
      if j == k {
        JoinsOther(K[k], cur, v);
      } else {
        assert before.visited[v];
      }
    }
  }

  lemma GrowsTrans(a: Search, b: Search, c: Search)
    requires Grows(a, b) && Grows(b, c)
    ensures Grows(a, c)
  {
  }

  /** The invariant of the queue loop in ExploreFamily. */
  ghost predicate ExploreLoop(K: seq<KinshipEntry>, s0: Search, t0: Trace, s: Search, t: Trace) {
    && |t0.roots| == s0.nfamilies >= 1 && EntriesInRange(K, |s0.people|)
    && Valid(K, s, t, -1) && Grows(s0, s)
    && t.roots == t0.roots && Below(s, t0.roots[s0.nfamilies - 1])
  }

  /** Taking `cur` off the queue sets up the scan of its entries. */
  lemma ExplorePop(K: seq<KinshipEntry>, s0: Search, t0: Trace, s: Search, t: Trace)
    requires ExploreLoop(K, s0, t0, s, t) && s.queue != []
    ensures var s' := s.(queue := s.queue[1..]);
      && Valid(K, s', t, s.queue[0]) && EntriesInRange(K, |s'.people|)
      && 0 <= s.queue[0] < |s'.people| && s'.visited[s.queue[0]] && s'.people[s.queue[0]].familyId == s'.nfamilies >= 1
      && Below(s', t.roots[s'.nfamilies - 1]) && Grows(s0, s') && Pending(s') < Pending(s)
  {
    PopKeeps(K, s, t);
  }

  /** Once its entries are scanned, `cur` is done. */
  lemma ExploreFinish(K: seq<KinshipEntry>, s0: Search, t0: Trace, mid: Search, tm: Trace, s: Search, t: Trace, cur: int)
    requires |t0.roots| == s0.nfamilies >= 1 && EntriesInRange(K, |s0.people|)
    requires Grows(s0, mid) && tm.roots == t0.roots && 0 <= cur < |mid.people|
    requires mid.visited[cur] && mid.people[cur].familyId == mid.nfamilies
    requires Valid(K, s, t, cur) && Grows(mid, s) && Pending(s) == Pending(mid)
    requires t.roots == tm.roots && t.done == tm.done && Below(s, t0.roots[s0.nfamilies - 1])
    requires Scanned(K, s, cur, |K|)
    ensures ExploreLoop(K, s0, t0, s, t.(done := t.done + {cur})) && Pending(s) == Pending(mid)
  {
    GrowsTrans(s0, mid, s);
    FinishKeeps(K, s, t, cur);
  }

  /** The breadth-first search of one family, from a queue holding its root. */
  method ExploreFamily(K: seq<KinshipEntry>, s0: Search, ghost t0: Trace) returns (s: Search, ghost t: Trace)
    requires Valid(K, s0, t0, -1) && EntriesInRange(K, |s0.people|) && s0.nfamilies >= 1
    requires Below(s0, t0.roots[s0.nfamilies - 1])
    ensures Valid(K, s, t, -1) && s.queue == [] && Grows(s0, s)
    ensures t.roots == t0.roots && Below(s, t0.roots[s0.nfamilies - 1])
  {
    s, t := s0, t0;
    while s.queue != []
      invariant ExploreLoop(K, s0, t0, s, t)
      decreases Pending(s)
    {
      var cur := s.queue[0];
      ExplorePop(K, s0, t0, s, t);
      s := s.(queue := s.queue[1..]);
      ghost var mid, tm := s, t;
      s, t := ScanEntries(K, s, t, cur);
      ExploreFinish(K, s0, t0, mid, tm, s, t, cur);
      t := t.(done := t.done + {cur});
    }
  }

  /** The invariant of the loop over the persons in AssignFamilies. */
  ghost predicate AssignLoop(K: seq<KinshipEntry>, people0: seq<EmpiricalPerson>, s: Search, t: Trace, i: int) {
    && EntriesInRange(K, |people0|) && 0 <= i <= |people0|
    && |s.people| == |people0| && SamePersons(people0, s.people)
    && Valid(K, s, t, -1) && s.queue == [] && Below(s, i)
    && forall k :: 0 <= k < |t.roots| ==> t.roots[k] < i
  }

  /** Opening a family at `i` sets up ExploreFamily. */
  lemma AssignOpen(K: seq<KinshipEntry>, people0: seq<EmpiricalPerson>, s: Search, t: Trace, i: int)
    requires AssignLoop(K, people0, s, t, i) && i < |people0| && !s.visited[i]
    ensures var s', t' := Start(s, i), Trace(t.roots + [i], t.paths[i := [i]], t.done);
      && Valid(K, s', t', -1) && EntriesInRange(K, |s'.people|) && s'.nfamilies >= 1
      && Below(s', t'.roots[s'.nfamilies - 1])
  {
    StartKeeps(K, s, t, i);
  }

  lemma AssignStep(K: seq<KinshipEntry>, people0: seq<EmpiricalPerson>, before: Search, tb: Trace,
                   s: Search, t: Trace, i: int)
    requires AssignLoop(K, people0, before, tb, i) && i < |people0|
    requires before.visited[i] ==> s == before && t == tb
    requires !before.visited[i] ==>
      && Valid(K, s, t, -1) && s.queue == [] && Grows(Start(before, i), s)
      && t.roots == tb.roots + [i] && Below(s, i)
    ensures AssignLoop(K, people0, s, t, i + 1)
  {
    if !before.visited[i] {
      FamilyExplored(people0, before, Start(before, i), s, i);
    }
  }

  /** `assign_families`: the outer loop over the persons, opening a family
      at every person not yet visited. */
  method AssignFamilies(people0: seq<EmpiricalPerson>, K: seq<KinshipEntry>)
      returns (people: seq<EmpiricalPerson>, nfamilies: int)
    requires Sequential(people0) && EntriesInRange(K, |people0|)
    requires forall p :: 0 <= p < |people0| ==> people0[p].familyId == 0
    ensures SamePersons(people0, people) && nfamilies >= 0
    ensures IsFamilyAssignment(K, people, nfamilies)
  {
    var s := Search(people0, seq(|people0|, _ => false), [], 0);
    ghost var t := Trace([], map[], {});
    for i := 0 to |people0|
      invariant AssignLoop(K, people0, s, t, i)
    {
      ghost var before, tb := s, t;
      if !s.visited[i] {
        AssignOpen(K, people0, s, t, i);
        s := Start(s, i);
        t := Trace(t.roots + [i], t.paths[i := [i]], t.done);
        s, t := ExploreFamily(K, s, t);
      }
      AssignStep(K, people0, before, tb, s, t, i);
    }
    ConcludeFamilies(K, s, t);
    people, nfamilies := s.people, s.nfamilies;
  }

  lemma FamilyExplored(people0: seq<EmpiricalPerson>, before: Search, started: Search, s: Search, i: int)
    requires SamePersons(people0, before.people) && |before.visited| == |before.people|
    requires 0 <= i < |before.people| && started == Start(before, i) && Grows(started, s)
    ensures SamePersons(people0, s.people) && s.visited[i]
    ensures Below(before, i) ==> Below(s, i + 1)
  {
  }

  /** Families numbered 1..nfamilies, each entry inside one family, each
      family linked by entries, every number used, and families numbered in
      the order of their first member. */
  ghost predicate IsFamilyAssignment(K: seq<KinshipEntry>, people: seq<EmpiricalPerson>, nfamilies: int) {
    Numbered(people, nfamilies) && EntriesWithin(K, people) && Linked(K, people)
      && AllUsed(people, nfamilies) && FirstMemberOrder(people)
  }

  ghost predicate Numbered(people: seq<EmpiricalPerson>, nfamilies: int) {
    forall p :: 0 <= p < |people| ==> 1 <= people[p].familyId <= nfamilies
  }

  /** Both ends of every entry are in the same family. */
  ghost predicate EntriesWithin(K: seq<KinshipEntry>, people: seq<EmpiricalPerson>) {
    && EntriesInRange(K, |people|)
    && forall j :: 0 <= j < |K| ==> people[K[j].id1 - 1].familyId == people[K[j].id2 - 1].familyId
  }

  /** The members of a family are linked by chains of entries. */
  ghost predicate Linked(K: seq<KinshipEntry>, people: seq<EmpiricalPerson>) {
    forall u, v :: 0 <= u < |people| && 0 <= v < |people| && people[u].familyId == people[v].familyId ==>
      Connected(K, u, v)
  }

  ghost predicate HasMember(people: seq<EmpiricalPerson>, f: int) {
    exists p :: 0 <= p < |people| && people[p].familyId == f
  }

  ghost predicate AllUsed(people: seq<EmpiricalPerson>, nfamilies: int) {
    forall f :: 1 <= f <= nfamilies ==> HasMember(people, f)
  }

  /** Every member of family f > 1 comes after some member of family f - 1:
      families are numbered in the order of their first member. */
  ghost predicate FirstMemberOrder(people: seq<EmpiricalPerson>) {
    forall p :: 0 <= p < |people| && people[p].familyId > 1 ==> HasMember(people[..p], people[p].familyId - 1)
  }

  /** The finished search is a family assignment. */
  lemma ConcludeFamilies(K: seq<KinshipEntry>, s: Search, t: Trace)
    requires Valid(K, s, t, -1) && s.queue == [] && Below(s, |s.people|) && EntriesInRange(K, |s.people|)
    ensures IsFamilyAssignment(K, s.people, s.nfamilies)
  {
    var people := s.people;
    forall j | 0 <= j < |K|
      ensures people[K[j].id1 - 1].familyId == people[K[j].id2 - 1].familyId
    {
      var u, v := K[j].id1 - 1, K[j].id2 - 1;
      assert s.visited[u];
      assert Joins(K[j], u, v);
    }
    forall u, v | 0 <= u < |people| && 0 <= v < |people| && people[u].familyId == people[v].familyId
      ensures Connected(K, u, v)
    {
      assert s.visited[u] && s.visited[v];
      var k := people[u].familyId - 1;
      ReversePath(K, t.paths[u], t.roots[k], u);
      ChainPaths(K, Reversed(t.paths[u]), t.paths[v], u, t.roots[k], v);
    }
    forall f | 1 <= f <= s.nfamilies
      ensures HasMember(people, f)
    {
      assert people[t.roots[f - 1]].familyId == f;
    }
    forall p | 0 <= p < |people| && people[p].familyId > 1
      ensures HasMember(people[..p], people[p].familyId - 1)
    {
      var f := people[p].familyId;
      assert s.visited[p];
      var q := t.roots[f - 2];
      assert q < t.roots[f - 1] <= p;
      assert people[..p][q].familyId == f - 1;
    }
  }

  // ---------------------------------------------------------------------
  // Paths

  ghost function Reversed(xs: seq<int>): (r: seq<int>)
    ensures |r| == |xs| && forall i :: 0 <= i < |xs| ==> r[i] == xs[|xs| - 1 - i]
  {
    if xs == [] then [] else Reversed(xs[1..]) + [xs[0]]
  }

  lemma AdjacentSymmetric(K: seq<KinshipEntry>, u: int, v: int)
    requires Adjacent(K, u, v)
    ensures Adjacent(K, v, u)
  {
    var j :| 0 <= j < |K| && Joins(K[j], u, v);
    assert Joins(K[j], v, u);
  }

  lemma ReversePath(K: seq<KinshipEntry>, path: seq<int>, u: int, v: int)
    requires IsPath(K, path, u, v)
    ensures IsPath(K, Reversed(path), v, u)
  {
    var r := Reversed(path);
    forall i | 0 <= i < |r| - 1
      ensures Adjacent(K, r[i], r[i + 1])
    {
      var j := |path| - 2 - i;
      assert Adjacent(K, path[j], path[j + 1]);
      AdjacentSymmetric(K, path[j], path[j + 1]);
    }
  }

  lemma ChainPaths(K: seq<KinshipEntry>, a: seq<int>, b: seq<int>, u: int, w: int, v: int)
    requires IsPath(K, a, u, w) && IsPath(K, b, w, v)
    ensures IsPath(K, a + b[1..], u, v)
  {
    var c := a + b[1..];
    forall i | 0 <= i < |c| - 1
      ensures Adjacent(K, c[i], c[i + 1])
    {
      if i < |a| - 1 {
        assert c[i] == a[i] && c[i + 1] == a[i + 1];
      } else {
        var j := i - |a| + 1;
        assert c[i] == b[j] && c[i + 1] == b[j + 1];
      }
    }
  }

  /** Persons linked by a chain of entries are in the same family. */
  lemma {:induction false} ConnectedSameFamily(K: seq<KinshipEntry>, people: seq<EmpiricalPerson>, path: seq<int>, u: int, v: int)
    requires EntriesWithin(K, people) && IsPath(K, path, u, v)
    requires 0 <= u < |people| && 0 <= v < |people|
    ensures people[u].familyId == people[v].familyId
    decreases |path|
  {
    if |path| > 1 {
      var w := path[1];
      assert Adjacent(K, u, w);
      var j :| 0 <= j < |K| && Joins(K[j], u, w);
      assert 0 <= w < |people| && people[u].familyId == people[w].familyId;
      var rest := path[1..];
      assert IsPath(K, rest, w, v) by {
        forall i | 0 <= i < |rest| - 1
          ensures Adjacent(K, rest[i], rest[i + 1])
        {
          assert rest[i] == path[i + 1] && rest[i + 1] == path[i + 2];
        }
      }
      ConnectedSameFamily(K, people, rest, w, v);
    }
  }

  /** The families are exactly the connected components. */
  lemma FamiliesAreComponents(K: seq<KinshipEntry>, people: seq<EmpiricalPerson>, nfamilies: int, u: int, v: int)
    requires IsFamilyAssignment(K, people, nfamilies) && 0 <= u < |people| && 0 <= v < |people|
    ensures people[u].familyId == people[v].familyId <==> Connected(K, u, v)
  {
    if Connected(K, u, v) {
      var path :| IsPath(K, path, u, v);
      ConnectedSameFamily(K, people, path, u, v);
    }
  }

  /** The first person opens family 1, and the families are numbered
      without gaps, so `nfamilies` is the number of families. */
  lemma FirstPersonOpensFamilyOne(K: seq<KinshipEntry>, people: seq<EmpiricalPerson>, nfamilies: int)
    requires IsFamilyAssignment(K, people, nfamilies) && |people| > 0
    ensures people[0].familyId == 1
    ensures nfamilies >= 1 && forall f :: 1 <= f <= nfamilies ==> HasMember(people, f)
  {
  }
}
