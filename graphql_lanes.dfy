/**
 * The lane assignment of the history endpoint (`assignLanes` in
 * src/app/api/graphql/route.js). Unlike the layout engine's, its `active`
 * list has no null slots: a row's id is spliced out, and parents not yet in
 * the list are spliced in at consecutive positions from the row's lane.
 */
module GraphqlLanes {
  import opened Strings
  import opened GraphqlParse
  import Seqs

  /** `active.indexOf(x)`: the first position of `x`, or -1. */
  function IndexOf(a: seq<string>, x: string): (i: int)
    ensures -1 <= i < |a|
    ensures i == -1 <==> x !in a
    ensures i >= 0 ==> a[i] == x && x !in a[..i]
  {
    if |a| == 0 then -1
    else if a[0] == x then 0
    else
      var j := IndexOf(a[1..], x);
      if j == -1 then -1
      else
        assert a[..j + 1] == [a[0]] + a[1..][..j];
        j + 1
  }

  /** `active.splice(i, 1)` */
  function RemoveAt(a: seq<string>, i: nat): seq<string>
    requires i < |a|
  {
    a[..i] + a[i + 1..]
  }

  /** `active.splice(i, 0, x)` */
  function InsertAt(a: seq<string>, i: nat, x: string): seq<string>
    requires i <= |a|
  {
    a[..i] + [x] + a[i..]
  }

  // ---------------------------------------------------------------------------
  // One row
  // ---------------------------------------------------------------------------

  /** The list after placing some parents, their lanes, and where the next new parent goes. */
  datatype Placed = Placed(active: seq<string>, lanes: seq<nat>, insertAt: nat)

  /**
   * One parent: one already in the list records its index there; any other
   * is spliced in at `insertAt`, which then moves one on.
   */
  function PlaceOne(pre: Placed, p: string): (r: Placed)
    requires pre.insertAt <= |pre.active|
    ensures |r.lanes| == |pre.lanes| + 1 && pre.insertAt <= r.insertAt <= |r.active|
  {
    var e := IndexOf(pre.active, p);
    if e != -1 then Placed(pre.active, pre.lanes + [e], pre.insertAt)
    else Placed(InsertAt(pre.active, pre.insertAt, p), pre.lanes + [pre.insertAt], pre.insertAt + 1)
  }

  /** The parent loop, from the row's lane `at`. */
  function PlaceParents(a: seq<string>, at: nat, ps: seq<string>): (r: Placed)
    requires at <= |a|
    ensures |r.lanes| == |ps| && at <= r.insertAt <= |r.active|
  {
    if ps == [] then Placed(a, [], at)
    else PlaceOne(PlaceParents(a, at, ps[..|ps| - 1]), ps[|ps| - 1])
  }

  /** The parents that are not in `a`, each once, in order of first occurrence. */
  function News(a: seq<string>, ps: seq<string>): seq<string> {
    if ps == [] then []
    else
      var n := News(a, ps[..|ps| - 1]);
      var p := ps[|ps| - 1];
      if p in a || p in n then n else n + [p]
  }

  lemma {:induction false} NewsMembers(a: seq<string>, ps: seq<string>)
    ensures forall x :: x in News(a, ps) <==> x in ps && x !in a
  {
    if ps != [] {
      var init := ps[..|ps| - 1];
      NewsMembers(a, init);
      assert ps == init + [ps[|ps| - 1]];
    }
  }

  lemma {:induction false} NewsDistinct(a: seq<string>, ps: seq<string>)
    ensures Seqs.Distinct(News(a, ps))
  {
    if ps != [] {
      NewsDistinct(a, ps[..|ps| - 1]);
    }
  }

  /** The news of a prefix of the parents are a prefix of the news. */
  lemma {:induction false} NewsPrefix(a: seq<string>, ps: seq<string>, k: nat)
    requires k <= |ps|
    ensures |News(a, ps[..k])| <= |News(a, ps)|
    ensures News(a, ps)[..|News(a, ps[..k])|] == News(a, ps[..k])
  {
    if k < |ps| {
      var init := ps[..|ps| - 1];
      NewsPrefix(a, init, k);
      assert init[..k] == ps[..k];
    } else {
      assert ps[..k] == ps;
    }
  }

  /** One step keeps the shape `a[..at] + news + a[at..]`. */
  lemma PlaceOneShape(a: seq<string>, at: nat, n: seq<string>, pre: Placed, p: string)
    requires at <= |a| && pre.active == a[..at] + n + a[at..] && pre.insertAt == at + |n|
    ensures var n' := if p in a || p in n then n else n + [p];
      PlaceOne(pre, p).active == a[..at] + n' + a[at..] && PlaceOne(pre, p).insertAt == at + |n'|
  {
    assert a == a[..at] + a[at..];
    assert p in pre.active <==> p in a || p in n;
    if p !in pre.active {
      assert pre.active[..at + |n|] == a[..at] + n;
      assert pre.active[at + |n|..] == a[at..];
    }
  }

  /**
   * The shape of the list after the parent loop: the new parents sit in one
   * block, in order, from the row's lane on, and the rest keeps its order.
   */
  lemma {:induction false} PlaceParentsShape(a: seq<string>, at: nat, ps: seq<string>)
    requires at <= |a|
    ensures PlaceParents(a, at, ps).active == a[..at] + News(a, ps) + a[at..]
    ensures PlaceParents(a, at, ps).insertAt == at + |News(a, ps)|
  {
    if ps == [] {
      assert a == a[..at] + a[at..];
    } else {
      var init := ps[..|ps| - 1];
      PlaceParentsShape(a, at, init);
      PlaceOneShape(a, at, News(a, init), PlaceParents(a, at, init), ps[|ps| - 1]);
    }
  }

  /** The lanes of a prefix of the parents are a prefix of the lanes. */
  lemma {:induction false} PlaceParentsPrefix(a: seq<string>, at: nat, ps: seq<string>, k: nat)
    requires at <= |a| && k <= |ps|
    ensures PlaceParents(a, at, ps).lanes[..k] == PlaceParents(a, at, ps[..k]).lanes
  {
    if k < |ps| {
      var init := ps[..|ps| - 1];
      PlaceParentsPrefix(a, at, init, k);
      assert init[..k] == ps[..k];
    } else {
      assert ps[..k] == ps;
    }
  }

  /** Parent `k`'s lane is the one `PlaceOne` gives it, in the list as it stands then. */
  lemma PlaceParentsLaneAt(a: seq<string>, at: nat, ps: seq<string>, k: nat)
    requires at <= |a| && k < |ps|
    ensures var pre := PlaceParents(a, at, ps[..k]);
      PlaceParents(a, at, ps).lanes[k] == PlaceOne(pre, ps[k]).lanes[k]
  {
    PlaceParentsPrefix(a, at, ps, k + 1);
    assert ps[..k + 1][..k] == ps[..k];
  }

  /**
   * Parent `k`'s lane: when it is in `a` or repeats an earlier parent, its
   * index in the list as it stands when it is looked up; otherwise the next
   * position of the block of new parents.
   */
  lemma PlaceParentsLane(a: seq<string>, at: nat, ps: seq<string>, k: nat)
    requires at <= |a| && k < |ps|
    ensures var r := PlaceParents(a, at, ps); var pre := PlaceParents(a, at, ps[..k]);
      (ps[k] in a || ps[k] in ps[..k] ==> r.lanes[k] == IndexOf(pre.active, ps[k])) &&
      (ps[k] !in a && ps[k] !in ps[..k] ==> r.lanes[k] == at + |News(a, ps[..k])|)
  {
    PlaceParentsLaneAt(a, at, ps, k);
    PlaceParentsHolds(a, at, ps[..k]);
    PlaceParentsShape(a, at, ps[..k]);
  }

  /** A parent new at position `k` is entry `|News(a, ps[..k])|` of the news. */
  lemma NewsAt(a: seq<string>, ps: seq<string>, k: nat)
    requires k < |ps| && ps[k] !in a && ps[k] !in ps[..k]
    ensures |News(a, ps[..k])| < |News(a, ps)| && News(a, ps)[|News(a, ps[..k])|] == ps[k]
  {
    var nk := News(a, ps[..k]);
    NewsMembers(a, ps[..k]);
    assert ps[..k + 1][..k] == ps[..k];
    assert News(a, ps[..k + 1]) == nk + [ps[k]];
    NewsPrefix(a, ps, k + 1);
  }

  /** A new parent still holds its lane once the loop is over. */
  lemma NewParentStays(a: seq<string>, at: nat, ps: seq<string>, k: nat)
    requires at <= |a| && k < |ps| && ps[k] !in a && ps[k] !in ps[..k]
    ensures var r := PlaceParents(a, at, ps); r.lanes[k] < |r.active| && r.active[r.lanes[k]] == ps[k]
  {
    var n := News(a, ps);
    var i := |News(a, ps[..k])|;
    PlaceParentsLane(a, at, ps, k);
    NewsAt(a, ps, k);
    PlaceParentsShape(a, at, ps);
    assert (a[..at] + n + a[at..])[at + i] == n[i];
  }

  /** Every parent is in the list after the loop. */
  lemma PlaceParentsHolds(a: seq<string>, at: nat, ps: seq<string>)
    requires at <= |a|
    ensures forall x :: x in PlaceParents(a, at, ps).active <==> x in a || x in ps
  {
    PlaceParentsShape(a, at, ps);
    NewsMembers(a, ps);
    forall x ensures x in a[..at] + News(a, ps) + a[at..] <==> x in a || x in ps {
      Seqs.MemberInserted(x, a, at, News(a, ps));
    }
  }

  /** A duplicate-free list stays duplicate-free. */
  lemma PlaceParentsDistinct(a: seq<string>, at: nat, ps: seq<string>)
    requires at <= |a| && Seqs.Distinct(a)
    ensures Seqs.Distinct(PlaceParents(a, at, ps).active)
  {
    PlaceParentsShape(a, at, ps);
    NewsMembers(a, ps);
    NewsDistinct(a, ps);
    DistinctInserted(a, at, News(a, ps));
  }

  /** Inserting a block of fresh, distinct ids into a duplicate-free list. */
  lemma DistinctInserted(a: seq<string>, at: nat, n: seq<string>)
    requires at <= |a| && Seqs.Distinct(a) && Seqs.Distinct(n)
    requires forall x :: x in n ==> x !in a
    ensures Seqs.Distinct(a[..at] + n + a[at..])
  {
    var r := a[..at] + n + a[at..];
    forall i, j | 0 <= i < j < |r| ensures r[i] != r[j] {
      var i' := if i < at then i else i - |n|;
      var j' := if j < at then j else j - |n|;
      if i < at || i >= at + |n| {
        assert r[i] == a[i'];
        if j < at || j >= at + |n| {
          assert r[j] == a[j'];
        } else {
          assert r[j] == n[j - at] && n[j - at] in n;
        }
      } else if j < at + |n| {
        assert r[i] == n[i - at] && r[j] == n[j - at];
      } else {
        assert r[i] == n[i - at] && n[i - at] in n && r[j] == a[j'];
      }
    }
  }

  /** Every parent lane lies inside the list after the loop. */
  lemma PlaceParentsLaneBound(a: seq<string>, at: nat, ps: seq<string>, k: nat)
    requires at <= |a| && k < |ps|
    ensures PlaceParents(a, at, ps).lanes[k] < |PlaceParents(a, at, ps).active|
  {
    PlaceParentsLaneAt(a, at, ps, k);
    var step := PlaceParents(a, at, ps[..k + 1]);
    assert ps[..k + 1][..k] == ps[..k];
    PlaceParentsShape(a, at, ps[..k + 1]);
    PlaceParentsShape(a, at, ps);
    NewsPrefix(a, ps, k + 1);
  }

  /** The parent loop as `assignLanes` runs it, editing `active` in place. */
  method PlaceParentsLoop(a: seq<string>, at: nat, ps: seq<string>) returns (active: seq<string>, parentLanes: seq<nat>)
    requires at <= |a|
    ensures active == PlaceParents(a, at, ps).active
    ensures parentLanes == PlaceParents(a, at, ps).lanes
  {
    active := a;
    parentLanes := [];
    var insertAt := at;
    for k := 0 to |ps|
      invariant PlaceParents(a, at, ps[..k]) == Placed(active, parentLanes, insertAt)
    {
      assert ps[..k + 1][..k] == ps[..k];
      var existing := IndexOf(active, ps[k]);
      if existing != -1 {
        parentLanes := parentLanes + [existing];
      } else {
        parentLanes := parentLanes + [insertAt];
        active := InsertAt(active, insertAt, ps[k]);
        insertAt := insertAt + 1;
      }
    }
    assert ps[..|ps|] == ps;
  }

  // ---------------------------------------------------------------------------
  // The walk over the commits
  // ---------------------------------------------------------------------------

  /** A row of the answer: the commit's fields, its lane and its parents' lanes. */
  datatype LaneRow = LaneRow(commit: LogCommit, lane: nat, parentLanes: seq<nat>)

  /** The state between commits: the list, the rows so far and the widest list seen. */
  datatype Walked = Walked(active: seq<string>, rows: seq<LaneRow>, maxLanes: nat)

  /** The row's lane: where the list holds its id, or else the end of the list. */
  function OwnLane(a: seq<string>, id: string): (lane: nat)
    ensures id in a ==> lane < |a| && a[lane] == id && id !in a[..lane]
    ensures id !in a ==> lane == |a|
  {
    var i := IndexOf(a, id);
    if i == -1 then |a| else i
  }

  /** The list once the row's id is spliced out (a missing id is pushed and spliced out again). */
  function Removed(a: seq<string>, id: string): (r: seq<string>)
    ensures OwnLane(a, id) <= |r|
  {
    var i := IndexOf(a, id);
    if i == -1 then a else RemoveAt(a, i)
  }

  /** One commit of the walk. */
  function Visit(st: Walked, c: LogCommit): Walked {
    var lane := OwnLane(st.active, c.id);
    var placed := PlaceParents(Removed(st.active, c.id), lane, c.parents);
    Walked(placed.active, st.rows + [LaneRow(c, lane, placed.lanes)],
           if |placed.active| > st.maxLanes then |placed.active| else st.maxLanes)
  }

  /** `assignLanes` as a fold over the commits. */
  function Walk(cs: seq<LogCommit>): (st: Walked)
    ensures |st.rows| == |cs|
  {
    if cs == [] then Walked([], [], 0) else Visit(Walk(cs[..|cs| - 1]), cs[|cs| - 1])
  }

  /** The reported width: the widest list, and at least 1 when there is a commit. */
  function FinalMax(cs: seq<LogCommit>): nat {
    var m := Walk(cs).maxLanes;
    if |cs| > 0 && m < 1 then 1 else m
  }

  /** The row's lookup: push the id when it is missing, then splice it out at its index. */
  method SpliceOut(a: seq<string>, id: string) returns (active: seq<string>, idx: nat)
    ensures idx == OwnLane(a, id) && active == Removed(a, id)
  {
    active := a;
    var i := IndexOf(active, id);
    if i == -1 {
      idx := |active|;
      active := active + [id];
      assert active[..idx] + active[idx + 1..] == a;
    } else {
      idx := i;
    }
    active := RemoveAt(active, idx);
  }

  /** `assignLanes`: one pass over the commits, splicing `active` in place. */
  method AssignLanes(commits: seq<LogCommit>) returns (rows: seq<LaneRow>, maxLanes: nat)
    ensures rows == Walk(commits).rows
    ensures maxLanes == FinalMax(commits)
  {
    var active: seq<string> := [];
    rows := [];
    maxLanes := 0;
    for i := 0 to |commits|
      invariant Walk(commits[..i]) == Walked(active, rows, maxLanes)
    {
      assert commits[..i + 1][..i] == commits[..i];
      var c := commits[i];
      var idx;
      active, idx := SpliceOut(active, c.id);
      var parentLanes;
      active, parentLanes := PlaceParentsLoop(active, idx, c.parents);
      rows := rows + [LaneRow(c, idx, parentLanes)];
      if |active| > maxLanes {
        maxLanes := |active|;
      }
    }
    assert commits[..|commits|] == commits;
    if |commits| > 0 && maxLanes < 1 {
      maxLanes := 1;
    }
  }

  // ---------------------------------------------------------------------------
  // Properties of one row
  // ---------------------------------------------------------------------------

  /** Splicing out the row's id removes it and nothing else from a duplicate-free list. */
  lemma RemovedMembers(a: seq<string>, id: string)
    requires Seqs.Distinct(a)
    ensures forall x :: x in Removed(a, id) <==> x in a && x != id
  {
    var i := IndexOf(a, id);
    if i != -1 {
      assert id !in a[..i];
      assert id !in a[i + 1..] by {
        forall j | i + 1 <= j < |a| ensures a[j] != id {
          assert a[i] == id;
        }
      }
      forall x ensures x in a[..i] + a[i + 1..] <==> x in a && x != id {
        Seqs.MemberSplit(x, a, i);
        Seqs.MemberSplit(x, a[i..], 1);
        assert a[i..][..1] == [id] && a[i..][1..] == a[i + 1..];
      }
    }
  }

  lemma RemovedDistinct(a: seq<string>, id: string)
    requires Seqs.Distinct(a)
    ensures Seqs.Distinct(Removed(a, id))
  {
    var i := IndexOf(a, id);
    if i != -1 {
      var r := a[..i] + a[i + 1..];
      assert |r| == |a| - 1;
      forall j | 0 <= j < |r| ensures r[j] == a[if j < i then j else j + 1] {
      }
      forall j, l | 0 <= j < l < |r| ensures r[j] != r[l] {
        var j' := if j < i then j else j + 1;
        var l' := if l < i then l else l + 1;
        assert j' < l';
      }
    }
  }

  /**
   * After a row the list is still duplicate-free and holds exactly the ids
   * it held before, less the row's own, plus the row's parents.
   */
  lemma VisitSpec(st: Walked, c: LogCommit)
    requires Seqs.Distinct(st.active)
    ensures Seqs.Distinct(Visit(st, c).active)
    ensures forall x :: x in Visit(st, c).active <==> (x in st.active && x != c.id) || x in c.parents
  {
    var r := Removed(st.active, c.id);
    RemovedMembers(st.active, c.id);
    RemovedDistinct(st.active, c.id);
    PlaceParentsDistinct(r, OwnLane(st.active, c.id), c.parents);
    PlaceParentsHolds(r, OwnLane(st.active, c.id), c.parents);
  }

  /**
   * The row's lane is at most the list's length after the row, and every
   * parent lane is below it.
   */
  lemma VisitLanes(st: Walked, c: LogCommit)
    ensures var st' := Visit(st, c); var row := st'.rows[|st.rows|];
      row.commit == c && row.lane <= |st'.active| && |row.parentLanes| == |c.parents| &&
      forall j :: 0 <= j < |row.parentLanes| ==> row.parentLanes[j] < |st'.active|
  {
    var lane := OwnLane(st.active, c.id);
    var r := Removed(st.active, c.id);
    PlaceParentsShape(r, lane, c.parents);
    forall j | 0 <= j < |c.parents| ensures PlaceParents(r, lane, c.parents).lanes[j] < |PlaceParents(r, lane, c.parents).active| {
      PlaceParentsLaneBound(r, lane, c.parents, j);
    }
  }

  // ---------------------------------------------------------------------------
  // Properties of the whole walk
  // ---------------------------------------------------------------------------

  /** After every commit the list is duplicate-free and no wider than `maxLanes`. */
  lemma {:induction false} WalkInv(cs: seq<LogCommit>)
    ensures Seqs.Distinct(Walk(cs).active) && |Walk(cs).active| <= Walk(cs).maxLanes
  {
    if cs != [] {
      WalkInv(cs[..|cs| - 1]);
      VisitSpec(Walk(cs[..|cs| - 1]), cs[|cs| - 1]);
    }
  }

  /** The first `k` rows are those of the first `k` commits, and `maxLanes` only grows. */
  lemma {:induction false} WalkPrefix(cs: seq<LogCommit>, k: nat)
    requires k <= |cs|
    ensures Walk(cs).rows[..k] == Walk(cs[..k]).rows
    ensures Walk(cs[..k]).maxLanes <= Walk(cs).maxLanes
  {
    if k < |cs| {
      var init := cs[..|cs| - 1];
      WalkPrefix(init, k);
      assert init[..k] == cs[..k];
      assert Walk(cs).rows[..|init|] == Walk(init).rows;
    } else {
      assert cs[..k] == cs;
    }
  }

  /**
   * Row `k` copies commit `k`, takes the lane where the list held its id
   * (or the end of the list), has one parent lane per parent, and its lane
   * is at most, and every parent lane below, the reported width.
   */
  lemma WalkRow(cs: seq<LogCommit>, k: nat)
    requires k < |cs|
    ensures var row := Walk(cs).rows[k];
      row.commit == cs[k] && row.lane == OwnLane(Walk(cs[..k]).active, cs[k].id) &&
      |row.parentLanes| == |cs[k].parents| && row.lane <= FinalMax(cs) &&
      forall j :: 0 <= j < |row.parentLanes| ==> row.parentLanes[j] < FinalMax(cs)
  {
    var before := Walk(cs[..k]);
    assert cs[..k + 1][..k] == cs[..k];
    WalkPrefix(cs, k + 1);
    assert Walk(cs).rows[k] == Walk(cs[..k + 1]).rows[k];
    VisitLanes(before, cs[k]);
    WalkInv(cs[..k + 1]);
  }

  /** `maxLanes` bounds the list's width after every commit. */
  lemma WalkMaxBound(cs: seq<LogCommit>, k: nat)
    requires k <= |cs|
    ensures |Walk(cs[..k]).active| <= Walk(cs).maxLanes
  {
    WalkInv(cs[..k]);
    WalkPrefix(cs, k);
  }

  /** ... and is reached: unless it is 0, it is the width after some commit `k`. */
  lemma {:induction false} WalkMaxReached(cs: seq<LogCommit>) returns (k: nat)
    ensures Walk(cs).maxLanes == 0 || (0 < k <= |cs| && |Walk(cs[..k]).active| == Walk(cs).maxLanes)
  {
    k := 0;
    if cs != [] {
      var init := cs[..|cs| - 1];
      var st := Walk(init);
      assert Walk(cs) == Visit(st, cs[|cs| - 1]);
      if Walk(cs).maxLanes != st.maxLanes {
        k := |cs|;
        assert cs[..k] == cs;
        assert Walk(cs).maxLanes == |Walk(cs).active|;
      } else if st.maxLanes != 0 {
        k := WalkMaxReached(init);
        assert init[..k] == cs[..k];
      }
    }
  }

  /**
   * The reported width is 0 for no commits and at least 1 otherwise. This
   * only unfolds `FinalMax`; the bounds on the list width itself are
   * `WalkMaxBound` and `WalkMaxReached`.
   */
  lemma FinalMaxSpec(cs: seq<LogCommit>)
    ensures FinalMax(cs) == 0 <==> cs == []
    ensures cs != [] ==> FinalMax(cs) >= 1 && FinalMax(cs) >= Walk(cs).maxLanes
  {
    if cs == [] {
      assert Walk(cs).maxLanes == 0;
    }
  }

  /**
   * A parent's recorded lane is its index when it is looked up: a new parent
   * spliced in later at or before that index moves it. With `P` in the list
   * and parents `[P, Q]`, both lanes are 0 and `P` ends at 1.
   */
  lemma ExistingParentMayMove()
    ensures var r := PlaceParents(["P"], 0, ["P", "Q"]);
      r.lanes == [0, 0] && r.active == ["Q", "P"] && r.active[r.lanes[0]] != "P"
  {
    var ps := ["P", "Q"];
    assert ps[..1] == ["P"] && ps[..1][..0] == [];
    assert IndexOf(["P"], "P") == 0;
  }

  /**
   * A row's lane can equal the reported width: a root commit that nothing
   * reserved goes to the end of the list without widening it.
   */
  lemma LaneMayEqualWidth(a: LogCommit, c: LogCommit)
    requires a.id == "A" && a.parents == ["B"] && c.id == "C" && c.parents == []
    ensures Walk([a, c]).rows[1].lane == 1 == FinalMax([a, c])
  {
    var cs := [a, c];
    assert cs[..1] == [a] && [a][..0] == [];
    var st0 := Walk([]);
    assert st0 == Walked([], [], 0);
    assert OwnLane([], a.id) == 0 && Removed([], a.id) == [];
    assert PlaceParents([], 0, ["B"]).active == ["B"] by {
      assert ["B"][..0] == [];
    }
    var st1 := Visit(st0, a);
    assert Walk([a]) == st1;
    assert st1.active == ["B"] && st1.maxLanes == 1;
    assert IndexOf(["B"], "C") == -1;
    assert Walk(cs) == Visit(st1, c);
  }
}
