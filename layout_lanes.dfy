/**
 * Commit-graph layout engine, part 2: `assignLanes` and `firstFree`
 * (src/commit-graph/layout.js). The rows are walked top to bottom over an
 * `active` array of nullable slots; each slot holds the id of a commit that a
 * row above has reserved a lane for, or null.
 */
module LayoutLanes {
  import opened Wrappers
  import opened Layout

  /** The `active` array: `None` is a null slot. */
  type Slots = seq<Option<string>>

  /** `active.indexOf(x)`: the first slot holding `x`, or -1. */
  function IndexOf(a: Slots, x: string): (r: int)
    ensures -1 <= r < |a|
    ensures r == -1 <==> Some(x) !in a
    ensures r >= 0 ==> a[r] == Some(x) && forall j :: 0 <= j < r ==> a[j] != Some(x)
  {
    if |a| == 0 then -1
    else if a[0] == Some(x) then 0
    else
      assert a == [a[0]] + a[1..];
      var r := IndexOf(a[1..], x);
      if r == -1 then -1 else r + 1
  }

  /** The first null slot, or -1 when there is none. */
  function FirstNull(a: Slots): (r: int)
    ensures -1 <= r < |a|
    ensures r == -1 <==> None !in a
    ensures r >= 0 ==> a[r] == None && forall j :: 0 <= j < r ==> a[j].Some?
  {
    if |a| == 0 then -1
    else if a[0] == None then 0
    else
      assert a == [a[0]] + a[1..];
      var r := FirstNull(a[1..]);
      if r == -1 then -1 else r + 1
  }

  /** `firstFree`: scans for the first null slot. */
  method FirstFree(arr: Slots) returns (i: int)
    ensures i == FirstNull(arr)
  {
    for k := 0 to |arr|
      invariant forall j :: 0 <= j < k ==> arr[j].Some?
    {
      if arr[k] == None {
        return k;
      }
    }
    return -1;
  }

  /** No id occupies two slots. */
  predicate NoDup(a: Slots) {
    forall i, j :: 0 <= i < j < |a| && a[i].Some? ==> a[i] != a[j]
  }

  /** The last slot, if any, is not null. */
  predicate NoTrailingNull(a: Slots) {
    |a| == 0 || a[|a| - 1].Some?
  }

  // ---------------------------------------------------------------------------
  // One row
  // ---------------------------------------------------------------------------

  /**
   * The lane a row takes: the slot already reserved for it, else the first
   * null slot, else a new slot at the end.
   */
  function OwnLane(a: Slots, id: string): (lane: nat)
    ensures lane <= |a|
    ensures Some(id) in a ==> lane == IndexOf(a, id)
    ensures Some(id) !in a && None in a ==> lane == FirstNull(a)
    ensures Some(id) !in a && None !in a ==> lane == |a|
  {
    var idx := IndexOf(a, id);
    if idx != -1 then idx
    else
      var free := FirstNull(a);
      if free == -1 then |a| else free
  }

  /**
   * The slots once the row has taken its lane and then freed it again
   * (`active[lane] = null`).
   */
  function Released(a: Slots, id: string): (r: Slots)
    ensures |r| == if OwnLane(a, id) == |a| then |a| + 1 else |a|
    ensures r[OwnLane(a, id)] == None
    ensures forall j :: 0 <= j < |a| && j != OwnLane(a, id) ==> r[j] == a[j]
  {
    var lane := OwnLane(a, id);
    var claimed := if lane == |a| then a + [Some(id)] else a[lane := Some(id)];
    claimed[lane := None]
  }

  /** Where the search for a free slot starts: `insertAt`, or the end when it is past it. */
  function Start(a: Slots, insertAt: nat): nat {
    if insertAt < |a| then insertAt else |a|
  }

  /** The slot a new parent is reserved in: the first null slot at or after `insertAt`, else the end. */
  function Spot(a: Slots, from: nat): (r: nat)
    ensures Start(a, from) <= r <= |a|
    ensures r < |a| ==> a[r] == None
    ensures forall j :: Start(a, from) <= j < r ==> a[j].Some?
    decreases |a| - from
  {
    if from >= |a| then |a|
    else if a[from] == None then from
    else Spot(a, from + 1)
  }

  /** Writes `p` into slot `spot`, appending when `spot` is the end. */
  function Reserve(a: Slots, spot: nat, p: string): (r: Slots)
    requires spot <= |a|
  {
    if spot == |a| then a + [Some(p)] else a[spot := Some(p)]
  }

  datatype Placed = Placed(active: Slots, lanes: seq<nat>)

  /** `r` with the lanes `done` recorded before it. */
  function After(done: seq<nat>, r: Placed): Placed {
    Placed(r.active, done + r.lanes)
  }

  /** The state after one parent: the slots, the next `insertAt`, and the lane recorded for the parent. */
  datatype Step = Step(active: Slots, insertAt: nat, lane: nat)

  /**
   * One turn of the parent loop: an already reserved parent records its
   * slot; a new one is reserved at `Spot(a, insertAt)` and `insertAt` moves
   * past it.
   */
  function PlaceOne(a: Slots, insertAt: nat, p: string): (s: Step)
    ensures |s.active| >= |a|
  {
    var existing := IndexOf(a, p);
    if existing != -1 then Step(a, insertAt, existing)
    else
      var spot := Spot(a, insertAt);
      Step(Reserve(a, spot, p), spot + 1, spot)
  }

  /** The parent loop: one lane per parent, in parent order. */
  function PlaceParents(a: Slots, insertAt: nat, ps: seq<string>): (r: Placed)
    ensures |r.lanes| == |ps|
    ensures |r.active| >= |a|
    decreases |ps|
  {
    if |ps| == 0 then Placed(a, [])
    else
      var s := PlaceOne(a, insertAt, ps[0]);
      After([s.lane], PlaceParents(s.active, s.insertAt, ps[1..]))
  }

  /** The slot of the parent's lane holds it afterwards. */
  lemma PlaceOneHolds(a: Slots, insertAt: nat, p: string)
    ensures var s := PlaceOne(a, insertAt, p); s.lane < |s.active| && s.active[s.lane] == Some(p)
  {
  }

  /** Slots that held an id keep it. */
  lemma PlaceOneKeeps(a: Slots, insertAt: nat, p: string, j: nat)
    requires j < |a| && a[j].Some?
    ensures PlaceOne(a, insertAt, p).active[j] == a[j]
  {
  }

  /** A turn adds `p` to the slots and no other id. */
  lemma PlaceOneOnly(a: Slots, insertAt: nat, p: string)
    ensures forall x :: Some(x) in PlaceOne(a, insertAt, p).active ==> Some(x) in a || x == p
  {
  }

  /** A reserved parent keeps everything as it was and records its slot. */
  lemma PlaceOneExisting(a: Slots, insertAt: nat, p: string)
    requires Some(p) in a
    ensures PlaceOne(a, insertAt, p) == Step(a, insertAt, IndexOf(a, p))
  {
  }

  /** A new parent is reserved at or after the search start, and the search resumes right after it. */
  lemma PlaceOneNew(a: Slots, insertAt: nat, p: string)
    requires Some(p) !in a
    ensures var s := PlaceOne(a, insertAt, p);
      s.lane == Spot(a, insertAt) && Start(a, insertAt) <= s.lane && s.insertAt == s.lane + 1 &&
      Start(s.active, s.insertAt) == s.insertAt
  {
  }

  /** The search start never moves back. */
  lemma PlaceOneStart(a: Slots, insertAt: nat, p: string)
    ensures var s := PlaceOne(a, insertAt, p); Start(a, insertAt) <= Start(s.active, s.insertAt)
  {
  }

  /** A parent is reserved only where `indexOf` missed it, so ids stay unique. */
  lemma PlaceOneNoDup(a: Slots, insertAt: nat, p: string)
    requires NoDup(a)
    ensures NoDup(PlaceOne(a, insertAt, p).active)
  {
  }

  /** Slots that held an id keep it. */
  lemma {:induction false} PlaceParentsKeeps(a: Slots, insertAt: nat, ps: seq<string>, j: nat)
    requires j < |a| && a[j].Some?
    ensures PlaceParents(a, insertAt, ps).active[j] == a[j]
    decreases |ps|
  {
    if |ps| > 0 {
      var s := PlaceOne(a, insertAt, ps[0]);
      PlaceOneKeeps(a, insertAt, ps[0], j);
      PlaceParentsKeeps(s.active, s.insertAt, ps[1..], j);
    }
  }

  /** Every parent gets exactly one lane, and the slot of that lane holds it afterwards. */
  lemma {:induction false} PlaceParentsHolds(a: Slots, insertAt: nat, ps: seq<string>, k: nat)
    requires k < |ps|
    ensures var r := PlaceParents(a, insertAt, ps);
      r.lanes[k] < |r.active| && r.active[r.lanes[k]] == Some(ps[k])
    decreases |ps|
  {
    var s := PlaceOne(a, insertAt, ps[0]);
    var rest := PlaceParents(s.active, s.insertAt, ps[1..]);
    if k == 0 {
      PlaceOneHolds(a, insertAt, ps[0]);
      PlaceParentsKeeps(s.active, s.insertAt, ps[1..], s.lane);
    } else {
      PlaceParentsHolds(s.active, s.insertAt, ps[1..], k - 1);
      assert PlaceParents(a, insertAt, ps).lanes[k] == rest.lanes[k - 1];
    }
  }

  /**
   * Every parent gets exactly one lane, and the slot of that lane holds it
   * afterwards; slots that held an id keep it.
   */
  lemma PlaceParentsSpec(a: Slots, insertAt: nat, ps: seq<string>)
    ensures var r := PlaceParents(a, insertAt, ps);
      (forall j :: 0 <= j < |a| && a[j].Some? ==> r.active[j] == a[j]) &&
      forall k :: 0 <= k < |ps| ==> r.lanes[k] < |r.active| && r.active[r.lanes[k]] == Some(ps[k])
  {
    forall j | 0 <= j < |a| && a[j].Some? ensures PlaceParents(a, insertAt, ps).active[j] == a[j] {
      PlaceParentsKeeps(a, insertAt, ps, j);
    }
    forall k | 0 <= k < |ps|
      ensures var r := PlaceParents(a, insertAt, ps); r.lanes[k] < |r.active| && r.active[r.lanes[k]] == Some(ps[k])
    {
      PlaceParentsHolds(a, insertAt, ps, k);
    }
  }

  /** The trailing-null `pop` loop. */
  function TrimNulls(a: Slots): (r: Slots)
    ensures |r| <= |a| && r == a[..|r|]
    ensures NoTrailingNull(r)
    ensures forall j :: |r| <= j < |a| ==> a[j] == None
    decreases |a|
  {
    if |a| > 0 && a[|a| - 1] == None then TrimNulls(a[..|a| - 1]) else a
  }

  /** The state the walk carries from row to row, and its result. */
  datatype LaneState = LaneState(
    active: Slots,
    laneOf: map<string, nat>,
    parentLanesOf: map<string, seq<nat>>,
    maxLanes: nat)

  /** One row of `assignLanes`, for a commit with the given parents. */
  function Visit(st: LaneState, id: string, ps: seq<string>): LaneState {
    var lane := OwnLane(st.active, id);
    var placed := PlaceParents(Released(st.active, id), lane, ps);
    var active := TrimNulls(placed.active);
    LaneState(active, st.laneOf[id := lane], st.parentLanesOf[id := placed.lanes],
              if |active| > st.maxLanes then |active| else st.maxLanes)
  }

  /** `assignLanes` as a fold over the rows; ids missing from the index are skipped. */
  function Walk(rows: seq<string>, byId: map<string, Commit>): LaneState {
    if rows == [] then LaneState([], map[], map[], 0)
    else
      var st := Walk(rows[..|rows| - 1], byId);
      var id := rows[|rows| - 1];
      if id in byId then Visit(st, id, ParentsOf(byId[id])) else st
  }

  // ---------------------------------------------------------------------------
  // assignLanes
  // ---------------------------------------------------------------------------

  /** `assignLanes`: one pass over the rows, editing `active` in place. */
  method AssignLanes(rows: seq<string>, commitById: map<string, Commit>)
    returns (laneByCommit: map<string, nat>, parentLanesByCommit: map<string, seq<nat>>, maxLanes: nat)
    ensures laneByCommit == Walk(rows, commitById).laneOf
    ensures parentLanesByCommit == Walk(rows, commitById).parentLanesOf
    ensures maxLanes == Walk(rows, commitById).maxLanes
  {
    var active: Slots := [];
    laneByCommit := map[];
    parentLanesByCommit := map[];
    maxLanes := 0;
    for r := 0 to |rows|
      invariant Walk(rows[..r], commitById) == LaneState(active, laneByCommit, parentLanesByCommit, maxLanes)
    {
      assert rows[..r + 1][..r] == rows[..r];
      var id := rows[r];
      if id !in commitById {
        continue;
      }
      var commit := commitById[id];
      var lane;
      active, lane := TakeLane(active, id);
      var parentLanes;
      active, parentLanes := PlaceParentsLoop(active, lane, ParentsOf(commit));
      laneByCommit := laneByCommit[id := lane];
      parentLanesByCommit := parentLanesByCommit[id := parentLanes];
      active := PopNulls(active);
      if |active| > maxLanes {
        maxLanes := |active|;
      }
    }
    assert rows[..|rows|] == rows;
  }

  /** Lines 78-87 of `assignLanes`: take the row's lane, then null it. */
  method TakeLane(a: Slots, id: string) returns (active: Slots, lane: nat)
    ensures lane == OwnLane(a, id)
    ensures active == Released(a, id)
  {
    active := a;
    var l := IndexOf(active, id);
    if l == -1 {
      l := FirstFree(active);
      if l == -1 {
        l := |active|;
        active := active + [Some(id)];
      } else {
        active := active[l := Some(id)];
      }
    }
    lane := l;
    active := active[lane := None];
  }

  /** The parent loop of `assignLanes`, starting with `insertAt = lane`. */
  method PlaceParentsLoop(a: Slots, lane: nat, parents: seq<string>) returns (active: Slots, parentLanes: seq<nat>)
    ensures Placed(active, parentLanes) == PlaceParents(a, lane, parents)
  {
    active := a;
    parentLanes := [];
    var insertAt := lane;
    assert parents[0..] == parents;
    assert After([], PlaceParents(a, lane, parents)) == PlaceParents(a, lane, parents);
    for k := 0 to |parents|
      invariant PlaceParents(a, lane, parents) == After(parentLanes, PlaceParents(active, insertAt, parents[k..]))
    {
      assert parents[k..][1..] == parents[k + 1..];
      ghost var s := PlaceOne(active, insertAt, parents[k]);
      AfterAfter(parentLanes, [s.lane], PlaceParents(s.active, s.insertAt, parents[k + 1..]));
      var p := parents[k];
      var existing := IndexOf(active, p);
      if existing != -1 {
        parentLanes := parentLanes + [existing];
      } else {
        var spot := FindSpot(active, insertAt);
        if spot == |active| {
          active := active + [Some(p)];
        } else {
          active := active[spot := Some(p)];
        }
        parentLanes := parentLanes + [spot];
        insertAt := spot + 1;
      }
      assert Step(active, insertAt, parentLanes[|parentLanes| - 1]) == s;
    }
    assert parents[|parents|..] == [];
  }

  lemma AfterAfter(d1: seq<nat>, d2: seq<nat>, r: Placed)
    ensures After(d1, After(d2, r)) == After(d1 + d2, r)
  {
    assert d1 + (d2 + r.lanes) == (d1 + d2) + r.lanes;
  }

  /** The `spot` scan of the parent loop. */
  method FindSpot(active: Slots, insertAt: nat) returns (spot: nat)
    ensures spot == Spot(active, insertAt)
  {
    spot := if insertAt < |active| then insertAt else |active|;
    while spot < |active| && active[spot] != None
      invariant Start(active, insertAt) <= spot <= |active|
      invariant forall j :: Start(active, insertAt) <= j < spot ==> active[j].Some?
      decreases |active| - spot
    {
      spot := spot + 1;
    }
    SpotUnique(active, insertAt, spot);
  }

  /** The scan loop finds exactly `Spot`. */
  lemma SpotUnique(a: Slots, from: nat, spot: nat)
    requires Start(a, from) <= spot <= |a|
    requires spot < |a| ==> a[spot] == None
    requires forall j :: Start(a, from) <= j < spot ==> a[j].Some?
    ensures spot == Spot(a, from)
  {
  }

  /** The trailing-null `pop` loop. */
  method PopNulls(a: Slots) returns (active: Slots)
    ensures active == TrimNulls(a)
  {
    active := a;
    while |active| > 0 && active[|active| - 1] == None
      invariant TrimNulls(active) == TrimNulls(a)
      decreases |active|
    {
      active := active[..|active| - 1];
    }
  }

  // ---------------------------------------------------------------------------
  // Properties of one row
  // ---------------------------------------------------------------------------

  /** Taking and freeing the lane keeps ids unique, and leaves the row's own id nowhere. */
  lemma ReleasedNoDup(a: Slots, id: string)
    requires NoDup(a)
    ensures NoDup(Released(a, id))
    ensures Some(id) !in Released(a, id)
  {
    var r := Released(a, id);
    var lane := OwnLane(a, id);
    forall j | 0 <= j < |r| ensures r[j] != Some(id) {
      if j != lane && Some(id) in a {
        assert a[j] != a[IndexOf(a, id)] || j == IndexOf(a, id);
      }
    }
  }

  /** The parent loop reserves a parent only where `indexOf` missed it, so ids stay unique. */
  lemma {:induction false} PlaceParentsNoDup(a: Slots, insertAt: nat, ps: seq<string>)
    requires NoDup(a)
    ensures NoDup(PlaceParents(a, insertAt, ps).active)
    decreases |ps|
  {
    if |ps| > 0 {
      var s := PlaceOne(a, insertAt, ps[0]);
      PlaceOneNoDup(a, insertAt, ps[0]);
      PlaceParentsNoDup(s.active, s.insertAt, ps[1..]);
    }
  }

  /** Parent `k` is new: not reserved in `a` and not an earlier parent of the same row. */
  predicate NewParent(a: Slots, ps: seq<string>, k: nat)
    requires k < |ps|
  {
    Some(ps[k]) !in a && ps[k] !in ps[..k]
  }

  /** A new parent of `ps` other than the first is a new parent of `ps[1..]`, once the first is placed. */
  lemma NewParentTail(a: Slots, insertAt: nat, ps: seq<string>, k: nat)
    requires 1 <= k < |ps| && NewParent(a, ps, k)
    ensures NewParent(PlaceOne(a, insertAt, ps[0]).active, ps[1..], k - 1)
  {
    PlaceOneOnly(a, insertAt, ps[0]);
    assert ps[1..][..k - 1] == ps[1..k];
    assert ps[..k] == [ps[0]] + ps[1..k];
  }

  /** New parents are reserved at or after `insertAt`, or at the end when that is past it. */
  lemma PlaceParentsNewFrom(a: Slots, insertAt: nat, ps: seq<string>)
    ensures forall k :: 0 <= k < |ps| && NewParent(a, ps, k) ==>
              PlaceParents(a, insertAt, ps).lanes[k] >= Start(a, insertAt)
  {
    forall k | 0 <= k < |ps| && NewParent(a, ps, k)
      ensures PlaceParents(a, insertAt, ps).lanes[k] >= Start(a, insertAt)
    {
      PlaceParentsNewFromAt(a, insertAt, ps, k);
    }
  }

  lemma {:induction false} PlaceParentsNewFromAt(a: Slots, insertAt: nat, ps: seq<string>, k: nat)
    requires k < |ps| && NewParent(a, ps, k)
    ensures PlaceParents(a, insertAt, ps).lanes[k] >= Start(a, insertAt)
    decreases |ps|
  {
    var s := PlaceOne(a, insertAt, ps[0]);
    var rest := PlaceParents(s.active, s.insertAt, ps[1..]);
    if k == 0 {
      PlaceOneNew(a, insertAt, ps[0]);
    } else {
      NewParentTail(a, insertAt, ps, k);
      PlaceParentsNewFromAt(s.active, s.insertAt, ps[1..], k - 1);
      PlaceOneStart(a, insertAt, ps[0]);
      assert PlaceParents(a, insertAt, ps).lanes[k] == rest.lanes[k - 1];
    }
  }

  /** New parents take strictly increasing slots. */
  lemma PlaceParentsNewIncreasing(a: Slots, insertAt: nat, ps: seq<string>)
    ensures forall k1, k2 :: 0 <= k1 < k2 < |ps| && NewParent(a, ps, k1) && NewParent(a, ps, k2) ==>
              PlaceParents(a, insertAt, ps).lanes[k1] < PlaceParents(a, insertAt, ps).lanes[k2]
  {
    forall k1, k2 | 0 <= k1 < k2 < |ps| && NewParent(a, ps, k1) && NewParent(a, ps, k2)
      ensures PlaceParents(a, insertAt, ps).lanes[k1] < PlaceParents(a, insertAt, ps).lanes[k2]
    {
      PlaceParentsNewIncreasingAt(a, insertAt, ps, k1, k2);
    }
  }

  lemma {:induction false} PlaceParentsNewIncreasingAt(a: Slots, insertAt: nat, ps: seq<string>, k1: nat, k2: nat)
    requires k1 < k2 < |ps| && NewParent(a, ps, k1) && NewParent(a, ps, k2)
    ensures PlaceParents(a, insertAt, ps).lanes[k1] < PlaceParents(a, insertAt, ps).lanes[k2]
    decreases |ps|
  {
    var s := PlaceOne(a, insertAt, ps[0]);
    var rest := PlaceParents(s.active, s.insertAt, ps[1..]);
    var lanes := PlaceParents(a, insertAt, ps).lanes;
    NewParentTail(a, insertAt, ps, k2);
    assert lanes[k2] == rest.lanes[k2 - 1];
    if k1 == 0 {
      PlaceOneNew(a, insertAt, ps[0]);
      PlaceParentsNewFromAt(s.active, s.insertAt, ps[1..], k2 - 1);
    } else {
      NewParentTail(a, insertAt, ps, k1);
      PlaceParentsNewIncreasingAt(s.active, s.insertAt, ps[1..], k1 - 1, k2 - 1);
      assert lanes[k1] == rest.lanes[k1 - 1];
    }
  }

  /** A parent that was already reserved records the slot holding it. */
  lemma PlaceParentsExisting(a: Slots, insertAt: nat, ps: seq<string>)
    requires NoDup(a)
    ensures forall k :: 0 <= k < |ps| && Some(ps[k]) in a ==>
              PlaceParents(a, insertAt, ps).lanes[k] == IndexOf(a, ps[k])
  {
    var r := PlaceParents(a, insertAt, ps);
    PlaceParentsNoDup(a, insertAt, ps);
    PlaceParentsSpec(a, insertAt, ps);
    forall k | 0 <= k < |ps| && Some(ps[k]) in a ensures r.lanes[k] == IndexOf(a, ps[k]) {
      var j := IndexOf(a, ps[k]);
      assert r.active[j] == Some(ps[k]);
      SameSlot(r.active, j, r.lanes[k]);
    }
  }

  /** In a slot array without duplicates, an id sits in one slot only. */
  lemma SameSlot(a: Slots, i: nat, j: nat)
    requires NoDup(a) && i < |a| && j < |a| && a[i].Some? && a[i] == a[j]
    ensures i == j
  {
  }

  /** Trimming keeps ids unique and keeps every occupied slot. */
  lemma TrimNullsKeeps(a: Slots)
    ensures NoDup(a) ==> NoDup(TrimNulls(a))
    ensures forall j :: 0 <= j < |a| && a[j].Some? ==> j < |TrimNulls(a)| && TrimNulls(a)[j] == a[j]
  {
  }

  /** What `assignLanes` keeps between rows. */
  predicate Inv(st: LaneState) {
    NoDup(st.active) && NoTrailingNull(st.active) && |st.active| <= st.maxLanes
  }

  /**
   * One row, from a state satisfying `Inv`: the invariant still holds,
   * `maxLanes` does not decrease, and there is one parent lane per parent,
   * below `maxLanes`, whose slot holds that parent.
   */
  lemma VisitKeepsInv(st: LaneState, id: string, ps: seq<string>)
    requires Inv(st)
    ensures var st' := Visit(st, id, ps);
      Inv(st') && st.maxLanes <= st'.maxLanes
    ensures var st' := Visit(st, id, ps); var pl := st'.parentLanesOf[id];
      |pl| == |ps| &&
      forall k :: 0 <= k < |ps| ==> pl[k] < |st'.active| <= st'.maxLanes && st'.active[pl[k]] == Some(ps[k])
  {
    var a1 := Released(st.active, id);
    var placed := PlaceParents(a1, OwnLane(st.active, id), ps);
    ReleasedNoDup(st.active, id);
    PlaceParentsNoDup(a1, OwnLane(st.active, id), ps);
    PlaceParentsSpec(a1, OwnLane(st.active, id), ps);
    TrimNullsKeeps(placed.active);
    var st' := Visit(st, id, ps);
    assert st'.active == TrimNulls(placed.active);
    assert st'.parentLanesOf[id] == placed.lanes;
    forall k | 0 <= k < |ps| ensures placed.lanes[k] < |st'.active| && st'.active[placed.lanes[k]] == Some(ps[k]) {
      assert placed.active[placed.lanes[k]].Some?;
    }
  }

  /** A parent reserved before the row, other than the row's own id, keeps its slot. */
  lemma VisitExistingParent(st: LaneState, id: string, ps: seq<string>, k: nat)
    requires Inv(st)
    requires k < |ps| && ps[k] != id && Some(ps[k]) in st.active
    ensures k < |Visit(st, id, ps).parentLanesOf[id]|
    ensures Visit(st, id, ps).parentLanesOf[id][k] == IndexOf(st.active, ps[k])
  {
    var a := st.active;
    var lane := OwnLane(a, id);
    var a1 := Released(a, id);
    ReleasedNoDup(a, id);
    PlaceParentsExisting(a1, lane, ps);
    var j := IndexOf(a, ps[k]);
    assert lane < |a| ==> a[lane] == None || a[lane] == Some(id);
    assert a1[j] == Some(ps[k]);
    SameSlot(a1, j, IndexOf(a1, ps[k]));
  }

  /**
   * Parents new to the row take strictly increasing slots from the row's own
   * lane on, and a new first parent takes the row's own lane.
   */
  lemma VisitNewParents(st: LaneState, id: string, ps: seq<string>)
    ensures var pl := Visit(st, id, ps).parentLanesOf[id]; var a1 := Released(st.active, id);
      |pl| == |ps| &&
      (forall k :: 0 <= k < |ps| && NewParent(a1, ps, k) ==> pl[k] >= OwnLane(st.active, id)) &&
      (forall k1, k2 :: 0 <= k1 < k2 < |ps| && NewParent(a1, ps, k1) && NewParent(a1, ps, k2) ==> pl[k1] < pl[k2])
    ensures var pl := Visit(st, id, ps).parentLanesOf[id];
      |ps| > 0 && Some(ps[0]) !in Released(st.active, id) ==> pl[0] == OwnLane(st.active, id)
  {
    var lane := OwnLane(st.active, id);
    var a1 := Released(st.active, id);
    PlaceParentsNewFrom(a1, lane, ps);
    PlaceParentsNewIncreasing(a1, lane, ps);
    assert Start(a1, lane) == lane;
    if |ps| > 0 && Some(ps[0]) !in a1 {
      assert Spot(a1, lane) == lane;
    }
  }

  // ---------------------------------------------------------------------------
  // Properties of the whole walk
  // ---------------------------------------------------------------------------

  /** After every row: no id occupies two slots, no trailing null slot, `|active| <= maxLanes`. */
  lemma {:induction false} WalkInv(rows: seq<string>, byId: map<string, Commit>)
    ensures Inv(Walk(rows, byId))
  {
    if rows != [] {
      WalkInv(rows[..|rows| - 1], byId);
      var id := rows[|rows| - 1];
      if id in byId {
        VisitKeepsInv(Walk(rows[..|rows| - 1], byId), id, ParentsOf(byId[id]));
      }
    }
  }

  /** Exactly the rows whose id is in the index get a lane and a parent-lane list. */
  lemma {:induction false} WalkKeys(rows: seq<string>, byId: map<string, Commit>)
    ensures Walk(rows, byId).laneOf.Keys == set id | id in rows && id in byId
    ensures Walk(rows, byId).parentLanesOf.Keys == set id | id in rows && id in byId
  {
    if rows != [] {
      var init := rows[..|rows| - 1];
      WalkKeys(init, byId);
      assert forall id :: id in rows <==> id in init || id == rows[|rows| - 1];
    }
  }

  /** `maxLanes` never decreases from one row to the next. */
  lemma {:induction false} WalkMaxLanesMonotone(rows: seq<string>, byId: map<string, Commit>, n: nat)
    requires n <= |rows|
    ensures Walk(rows[..n], byId).maxLanes <= Walk(rows, byId).maxLanes
  {
    if n < |rows| {
      var init := rows[..|rows| - 1];
      assert rows[..n] == init[..n];
      WalkMaxLanesMonotone(init, byId, n);
      WalkInv(init, byId);
      var id := rows[|rows| - 1];
      if id in byId {
        VisitKeepsInv(Walk(init, byId), id, ParentsOf(byId[id]));
      }
    } else {
      assert rows[..n] == rows;
    }
  }

  /**
   * Every recorded parent lane is below the final `maxLanes`, and there is one
   * per parent of the commit.
   */
  lemma {:induction false} WalkParentLanesBelowMax(rows: seq<string>, byId: map<string, Commit>)
    ensures var st := Walk(rows, byId);
      forall id :: id in st.parentLanesOf ==>
        id in byId && |st.parentLanesOf[id]| == |ParentsOf(byId[id])| &&
        forall k :: 0 <= k < |st.parentLanesOf[id]| ==> st.parentLanesOf[id][k] < st.maxLanes
  {
    if rows != [] {
      var init := rows[..|rows| - 1];
      WalkParentLanesBelowMax(init, byId);
      WalkInv(init, byId);
      var id := rows[|rows| - 1];
      if id in byId {
        VisitKeepsInv(Walk(init, byId), id, ParentsOf(byId[id]));
      }
    }
  }

  /** A lone root commit gets lane 0 but leaves `maxLanes` at 0: `lane < maxLanes` is not guaranteed. */
  lemma LoneRoot()
    ensures var st := Walk(["r"], map["r" := Commit("r", Some([]), None)]);
      st.laneOf["r"] == 0 && st.maxLanes == 0
  {
    var byId := map["r" := Commit("r", Some([]), None)];
    assert ["r"][..0] == [];
    var a1 := Released([], "r");
    assert a1 == [None];
    assert TrimNulls([None]) == [];
  }
}
