/**
 * Commit-graph layout engine, part 1: the commit record, the indices built by
 * `normalize` and the row order computed by `topoRowOrder`
 * (src/commit-graph/layout.js).
 */
module Layout {
  import opened Wrappers
  import Sorting

  /**
   * A commit as the layout engine receives it. `parents` is None when the
   * field is not an array (the engine then treats it as having no parents);
   * `authorTime` is None when it is missing or otherwise falsy.
   */
  datatype Commit = Commit(id: string, parents: Option<seq<string>>, authorTime: Option<int>)

  /** `Array.isArray(c.parents) ? c.parents : []` */
  function ParentsOf(c: Commit): seq<string> {
    if c.parents.Some? then c.parents.value else []
  }

  /** `c.authorTime || 0` */
  function TimeOf(c: Commit): int {
    if c.authorTime.Some? then c.authorTime.value else 0
  }

  function Ids(cs: seq<Commit>): (ids: seq<string>)
    ensures |ids| == |cs| && forall k :: 0 <= k < |cs| ==> ids[k] == cs[k].id
  {
    seq(|cs|, k requires 0 <= k < |cs| => cs[k].id)
  }

  // ---------------------------------------------------------------------------
  // normalize
  // ---------------------------------------------------------------------------

  /** The four indices `normalize` returns. */
  datatype Graph = Graph(
    commitById: map<string, Commit>,
    childrenById: map<string, seq<string>>,
    merges: set<string>,
    roots: set<string>)

  /**
   * The by-id index, filled in input order: every id of the batch is a key
   * and a later commit with the same id replaces an earlier one.
   */
  function IndexById(cs: seq<Commit>): (m: map<string, Commit>)
    ensures m.Keys == set c | c in cs :: c.id
    ensures forall id :: id in m ==> m[id] in cs && m[id].id == id
  {
    if cs == [] then map[]
    else
      var init := cs[..|cs| - 1];
      var last := cs[|cs| - 1];
      assert forall c :: c in cs <==> c in init || c == last;
      IndexById(init)[last.id := last]
  }

  /** A duplicate id is not rejected: the last commit carrying it is the one indexed. */
  lemma {:induction false} IndexByIdLastWins(cs: seq<Commit>, i: nat)
    requires i < |cs|
    requires forall j :: i < j < |cs| ==> cs[j].id != cs[i].id
    ensures IndexById(cs)[cs[i].id] == cs[i]
  {
    if i < |cs| - 1 {
      IndexByIdLastWins(cs[..|cs| - 1], i);
    }
  }

  function ChildrenIn(m: map<string, seq<string>>, p: string): seq<string> {
    if p in m then m[p] else []
  }

  /** Appends `child` to the list of every parent in `ps`, in order (the inner loop of `normalize`). */
  function AddChild(m: map<string, seq<string>>, child: string, ps: seq<string>): map<string, seq<string>>
    decreases |ps|
  {
    if ps == [] then m
    else AddChild(m[ps[0] := ChildrenIn(m, ps[0]) + [child]], child, ps[1..])
  }

  /** The children index `normalize` builds, one commit at a time. */
  function ChildIndex(cs: seq<Commit>): map<string, seq<string>> {
    if cs == [] then map[]
    else AddChild(ChildIndex(cs[..|cs| - 1]), cs[|cs| - 1].id, ParentsOf(cs[|cs| - 1]))
  }

  function Count(ps: seq<string>, p: string): nat {
    if ps == [] then 0 else (if ps[0] == p then 1 else 0) + Count(ps[1..], p)
  }

  function Repeat(x: string, n: nat): (r: seq<string>)
    ensures |r| == n && forall k :: 0 <= k < n ==> r[k] == x
  {
    if n == 0 then [] else [x] + Repeat(x, n - 1)
  }

  /**
   * Reference definition of the children of `p`: the ids of the commits that
   * name `p` as a parent, in input order, once per occurrence.
   */
  function ChildrenOf(cs: seq<Commit>, p: string): seq<string> {
    if cs == [] then []
    else ChildrenOf(cs[..|cs| - 1], p) + Repeat(cs[|cs| - 1].id, Count(ParentsOf(cs[|cs| - 1]), p))
  }

  lemma {:induction false} RepeatSucc(x: string, n: nat)
    ensures Repeat(x, n) + [x] == Repeat(x, n + 1)
  {
    if n > 0 {
      RepeatSucc(x, n - 1);
    }
  }

  lemma {:induction false} AddChildSpec(m: map<string, seq<string>>, child: string, ps: seq<string>, p: string)
    ensures ChildrenIn(AddChild(m, child, ps), p) == ChildrenIn(m, p) + Repeat(child, Count(ps, p))
    ensures p in AddChild(m, child, ps) <==> p in m || p in ps
    decreases |ps|
  {
    if ps != [] {
      var m' := m[ps[0] := ChildrenIn(m, ps[0]) + [child]];
      AddChildSpec(m', child, ps[1..], p);
      assert p in ps <==> p == ps[0] || p in ps[1..];
      if ps[0] == p {
        RepeatSucc(child, Count(ps[1..], p));
      }
    }
  }

  /**
   * The children index is exactly the reference definition: for every id `p`
   * (in the batch or not), `childrenById[p]` lists, in input order, each
   * commit that names `p` as a parent; `p` is a key iff some commit names it.
   */
  lemma {:induction false} ChildIndexSpec(cs: seq<Commit>, p: string)
    ensures ChildrenIn(ChildIndex(cs), p) == ChildrenOf(cs, p)
    ensures p in ChildIndex(cs) <==> exists c :: c in cs && p in ParentsOf(c)
  {
    if cs != [] {
      var init := cs[..|cs| - 1];
      var last := cs[|cs| - 1];
      ChildIndexSpec(init, p);
      AddChildSpec(ChildIndex(init), last.id, ParentsOf(last), p);
      assert forall c :: c in cs <==> c in init || c == last;
    }
  }

  /**
   * `normalize`: builds the by-id, children, roots and merges indices.
   * A commit with no parents (or a non-array `parents`) is a root, one with
   * more than one parent is a merge; nothing is rejected.
   */
  method Normalize(commits: seq<Commit>) returns (g: Graph)
    ensures g.commitById == IndexById(commits)
    ensures g.childrenById == ChildIndex(commits)
    ensures g.roots == set c | c in commits && |ParentsOf(c)| == 0 :: c.id
    ensures g.merges == set c | c in commits && |ParentsOf(c)| > 1 :: c.id
  {
    var byId := IndexCommits(commits);
    var childrenById: map<string, seq<string>> := map[];
    var merges: set<string> := {};
    var roots: set<string> := {};
    for i := 0 to |commits|
      invariant childrenById == ChildIndex(commits[..i])
      invariant roots == RootIds(commits[..i])
      invariant merges == MergeIds(commits[..i])
    {
      var c := commits[i];
      var ps := ParentsOf(c);
      if |ps| == 0 { roots := roots + {c.id}; }
      if |ps| > 1 { merges := merges + {c.id}; }
      childrenById := AddChildren(childrenById, c.id, ps);
      assert commits[..i + 1][..i] == commits[..i];
    }
    assert commits[..|commits|] == commits;
    RootIdsSpec(commits);
    MergeIdsSpec(commits);
    g := Graph(byId, childrenById, merges, roots);
  }

  /** The first loop of `normalize`: each commit under its id, a later duplicate winning. */
  method IndexCommits(commits: seq<Commit>) returns (byId: map<string, Commit>)
    ensures byId == IndexById(commits)
  {
    byId := map[];
    for i := 0 to |commits|
      invariant byId == IndexById(commits[..i])
    {
      assert commits[..i + 1][..i] == commits[..i];
      byId := byId[commits[i].id := commits[i]];
    }
    assert commits[..|commits|] == commits;
  }

  /** The ids of the commits without parents, added one commit at a time. */
  function RootIds(cs: seq<Commit>): set<string> {
    if |cs| == 0 then {}
    else RootIds(cs[..|cs| - 1]) + (if |ParentsOf(cs[|cs| - 1])| == 0 then {cs[|cs| - 1].id} else {})
  }

  /** The ids of the commits with more than one parent, added one commit at a time. */
  function MergeIds(cs: seq<Commit>): set<string> {
    if |cs| == 0 then {}
    else MergeIds(cs[..|cs| - 1]) + (if |ParentsOf(cs[|cs| - 1])| > 1 then {cs[|cs| - 1].id} else {})
  }

  lemma {:induction false} RootIdsSpec(cs: seq<Commit>)
    ensures RootIds(cs) == set c | c in cs && |ParentsOf(c)| == 0 :: c.id
  {
    if |cs| > 0 {
      RootIdsSpec(cs[..|cs| - 1]);
      assert forall c :: c in cs <==> c in cs[..|cs| - 1] || c == cs[|cs| - 1];
    }
  }

  lemma {:induction false} MergeIdsSpec(cs: seq<Commit>)
    ensures MergeIds(cs) == set c | c in cs && |ParentsOf(c)| > 1 :: c.id
  {
    if |cs| > 0 {
      MergeIdsSpec(cs[..|cs| - 1]);
      assert forall c :: c in cs <==> c in cs[..|cs| - 1] || c == cs[|cs| - 1];
    }
  }

  /** The inner loop of `normalize`: appends `child` to the list of each parent in turn. */
  method AddChildren(m: map<string, seq<string>>, child: string, ps: seq<string>) returns (r: map<string, seq<string>>)
    ensures r == AddChild(m, child, ps)
  {
    r := m;
    for k := 0 to |ps|
      invariant AddChild(r, child, ps[k..]) == AddChild(m, child, ps)
    {
      assert ps[k..][1..] == ps[k + 1..];
      var arr := if ps[k] in r then r[ps[k]] else [];
      r := r[ps[k] := arr + [child]];
    }
    assert ps[|ps|..] == [];
  }

  // ---------------------------------------------------------------------------
  // topoRowOrder
  // ---------------------------------------------------------------------------

  /** `{ c, i }`: a commit paired with its input position. */
  datatype Entry = Entry(c: Commit, i: nat)

  /** The comparator of `topoRowOrder`: newer first, then earlier input position first. */
  predicate RowBefore(a: Entry, b: Entry) {
    TimeOf(a.c) > TimeOf(b.c) || (TimeOf(a.c) == TimeOf(b.c) && a.i <= b.i)
  }

  lemma RowBeforeIsTotalPreorder()
    ensures Sorting.Total(RowBefore)
    ensures Sorting.Transitive(RowBefore)
  {
  }

  function Indexed(cs: seq<Commit>): (es: seq<Entry>)
    ensures |es| == |cs| && forall k :: 0 <= k < |cs| ==> es[k] == Entry(cs[k], k)
  {
    seq(|cs|, k requires 0 <= k < |cs| => Entry(cs[k], k))
  }

  /** The entries in the order `sort` leaves them: sorted by `RowBefore`, each one an input entry. */
  function SortedEntries(cs: seq<Commit>): (sorted: seq<Entry>)
    ensures multiset(sorted) == multiset(Indexed(cs))
    ensures |sorted| == |cs|
    ensures forall k :: 0 <= k < |sorted| ==> sorted[k].i < |cs| && sorted[k] == Entry(cs[sorted[k].i], sorted[k].i)
    ensures forall a, b :: 0 <= a < b < |sorted| ==> RowBefore(sorted[a], sorted[b]) && sorted[a].i != sorted[b].i
  {
    var es := Indexed(cs);
    RowBeforeIsTotalPreorder();
    var sorted := Sorting.InsertionSort(es, RowBefore);
    Sorting.InsertionSortSorted(es, RowBefore);
    assert forall a, b :: 0 <= a < b < |es| ==> es[a] != es[b];
    Sorting.DistinctMultiset(es, sorted);
    forall k | 0 <= k < |sorted| ensures sorted[k].i < |cs| && sorted[k] == Entry(cs[sorted[k].i], sorted[k].i) {
      assert sorted[k] in multiset(es);
    }
    sorted
  }

  /** The input positions in row order: the permutation that `sort` applies. */
  function RowOrderPositions(cs: seq<Commit>): (perm: seq<nat>)
    ensures |perm| == |cs|
    ensures forall k :: 0 <= k < |perm| ==> perm[k] < |cs|
    ensures forall a, b :: 0 <= a < b < |perm| ==> perm[a] != perm[b]
    ensures forall a, b :: 0 <= a < b < |perm| ==>
              TimeOf(cs[perm[a]]) > TimeOf(cs[perm[b]]) ||
              (TimeOf(cs[perm[a]]) == TimeOf(cs[perm[b]]) && perm[a] < perm[b])
  {
    var sorted := SortedEntries(cs);
    seq(|sorted|, k requires 0 <= k < |sorted| => sorted[k].i)
  }

  /**
   * `topoRowOrder`: the commit ids sorted by author time, newest first, ties
   * kept in input order.
   */
  function TopoRowOrder(cs: seq<Commit>): (ids: seq<string>)
    ensures |ids| == |cs|
    ensures forall k :: 0 <= k < |ids| ==> ids[k] == cs[RowOrderPositions(cs)[k]].id
  {
    Sorting.MapSeq(SortedEntries(cs), (e: Entry) => e.c.id)
  }

  /** The row order is a permutation of the input ids. */
  lemma TopoRowOrderIsPermutation(cs: seq<Commit>)
    ensures multiset(TopoRowOrder(cs)) == multiset(Ids(cs))
  {
    var f := (e: Entry) => e.c.id;
    Sorting.MultisetMap(SortedEntries(cs), Indexed(cs), f);
    assert Sorting.MapSeq(Indexed(cs), f) == Ids(cs);
  }
}
