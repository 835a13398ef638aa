/**
 * The row preparation and label formatting of the commit-graph component
 * (src/components/CommitGraph.jsx): the lane count, the per-row cell flags
 * (`node`, `conn`, `h`) and `formatRemoteLabel`.
 */
module CommitGraph {
  import opened Wrappers
  import opened Strings

  // ---------------------------------------------------------------------------
  // Lanes
  // ---------------------------------------------------------------------------

  /**
   * `Math.max(1, Number(maxLanes) || 1)`: `None` stands for a value that
   * converts to NaN (or is missing), which `||` treats like 0.
   */
  function LaneCount(maxLanes: Option<int>): (lanes: nat)
    ensures lanes >= 1
    ensures maxLanes.Some? && maxLanes.value >= 1 ==> lanes == maxLanes.value
    ensures maxLanes.None? || maxLanes.value < 1 ==> lanes == 1
  {
    var n := if maxLanes.Some? && maxLanes.value != 0 then maxLanes.value else 1;
    if n < 1 then 1 else n
  }

  /** `Math.max(0, Math.min(lanes - 1, Number(n) || 0))` */
  function Clamp(n: Option<int>, lanes: nat): (c: nat)
    requires lanes >= 1
    ensures c < lanes
    ensures n.Some? && 0 <= n.value < lanes ==> c == n.value
    ensures n.Some? && n.value >= lanes ==> c == lanes - 1
    ensures n.None? || n.value < 0 ==> c == 0
  {
    var v := if n.Some? then n.value else 0;
    if v < 0 then 0 else if v > lanes - 1 then lanes - 1 else v
  }

  // ---------------------------------------------------------------------------
  // Rows and cells
  // ---------------------------------------------------------------------------

  /**
   * A row handed to the component. Missing strings are empty; `None` is a
   * missing or non-array `parentLanes` or `labels`, or a lane that is not a
   * number.
   */
  datatype Row = Row(
    id: string,
    short: string,
    lane: Option<int>,
    parentLanes: Option<seq<Option<int>>>,
    labels: Option<seq<string>>,
    message: string)

  datatype Cell = Cell(node: bool, conn: bool, h: bool)

  datatype PreparedRow = PreparedRow(id: string, short: string, labels: seq<string>, message: string, cells: seq<Cell>)

  /** The clamped parent lanes, or none when `parentLanes` is not an array. */
  function ParentLanesOf(r: Row, lanes: nat): (pls: seq<nat>)
    requires lanes >= 1
    ensures r.parentLanes.None? ==> pls == []
    ensures r.parentLanes.Some? ==> |pls| == |r.parentLanes.value|
    ensures forall k :: 0 <= k < |pls| ==> pls[k] < lanes && pls[k] == Clamp(r.parentLanes.value[k], lanes)
  {
    if r.parentLanes.None? then []
    else seq(|r.parentLanes.value|, k requires 0 <= k < |r.parentLanes.value| => Clamp(r.parentLanes.value[k], lanes))
  }

  /** Cell `i` lies between the row's lane and some parent lane, both included. */
  predicate Spanned(lane: nat, pls: seq<nat>, i: int) {
    exists j :: 0 <= j < |pls| && Min(lane, pls[j]) <= i <= Max(lane, pls[j])
  }

  /**
   * What a prepared row's cells are: one per lane; the node exactly at the
   * row's lane; a connector exactly at the row's lane and at every parent
   * lane; a horizontal line exactly on the cells between the row's lane and
   * a parent lane.
   */
  predicate CellsFor(cells: seq<Cell>, lanes: nat, lane: nat, pls: seq<nat>) {
    |cells| == lanes &&
    forall i :: 0 <= i < |cells| ==>
      cells[i].node == (i == lane) &&
      cells[i].conn == (i == lane || i in pls) &&
      cells[i].h == Spanned(lane, pls, i)
  }

  /** Adding one parent lane extends the spanned cells by its own span. */
  lemma SpannedSnoc(lane: nat, pls: seq<nat>, k: nat, i: int)
    requires k < |pls|
    ensures Spanned(lane, pls[..k + 1], i) <==>
      Spanned(lane, pls[..k], i) || Min(lane, pls[k]) <= i <= Max(lane, pls[k])
  {
    var pre := pls[..k + 1];
    if Spanned(lane, pre, i) && !(Min(lane, pls[k]) <= i <= Max(lane, pls[k])) {
      var j :| 0 <= j < |pre| && Min(lane, pre[j]) <= i <= Max(lane, pre[j]);
      assert pls[..k][j] == pre[j];
    }
    if Spanned(lane, pls[..k], i) {
      var j :| 0 <= j < k && Min(lane, pls[..k][j]) <= i <= Max(lane, pls[..k][j]);
      assert pre[j] == pls[..k][j];
    }
    if Min(lane, pls[k]) <= i <= Max(lane, pls[k]) {
      assert pre[k] == pls[k];
    }
  }

  /** The cells of one row, set in place as `prepareRows` does. */
  method PrepareCells(lanes: nat, lane: nat, pls: seq<nat>) returns (cells: seq<Cell>)
    requires lane < lanes && forall k :: 0 <= k < |pls| ==> pls[k] < lanes
    ensures CellsFor(cells, lanes, lane, pls)
  {
    var a := new Cell[lanes](_ => Cell(false, false, false));
    a[lane] := a[lane].(node := true);
    a[lane] := a[lane].(conn := true);
    for k := 0 to |pls|
      invariant CellsFor(a[..], lanes, lane, pls[..k])
    {
      AddParentLane(a, lane, pls, k);
    }
    assert pls[..|pls|] == pls;
    cells := a[..];
  }

  /** The body of the parent loop: the connector at parent lane `k`, then its horizontal run. */
  method AddParentLane(a: array<Cell>, lane: nat, pls: seq<nat>, k: nat)
    requires k < |pls| && lane < a.Length && pls[k] < a.Length
    requires CellsFor(a[..], a.Length, lane, pls[..k])
    modifies a
    ensures CellsFor(a[..], a.Length, lane, pls[..k + 1])
  {
    var pl := pls[k];
    assert forall i :: i in pls[..k + 1] <==> i in pls[..k] || i == pl by {
      assert pls[..k + 1] == pls[..k] + [pl];
    }
    a[pl] := a[pl].(conn := true);
    var lo := Min(lane, pl);
    var hi := Max(lane, pl);
    for i := lo to hi + 1
      invariant forall m :: 0 <= m < a.Length ==>
        a[m].node == (m == lane) && a[m].conn == (m == lane || m in pls[..k + 1]) &&
        a[m].h == (Spanned(lane, pls[..k], m) || lo <= m < i)
    {
      a[i] := a[i].(h := true);
    }
    forall m | 0 <= m < a.Length ensures a[m].h == Spanned(lane, pls[..k + 1], m) {
      SpannedSnoc(lane, pls, k, m);
    }
  }

  /** `r.short || (r.id || '').slice(0, 7)` */
  function ShortOf(r: Row): string {
    Or(r.short, Take(r.id, 7))
  }

  /** `Array.isArray(r.labels) ? r.labels : []` */
  function LabelsOf(r: Row): seq<string> {
    if r.labels.Some? then r.labels.value else []
  }

  /** A prepared row: the row's text fields with their defaults and its cells. */
  predicate PreparedFrom(p: PreparedRow, r: Row, lanes: nat)
    requires lanes >= 1
  {
    p.id == r.id && p.short == ShortOf(r) && p.labels == LabelsOf(r) && p.message == r.message &&
    CellsFor(p.cells, lanes, Clamp(r.lane, lanes), ParentLanesOf(r, lanes))
  }

  /** `prepareRows`: one prepared row per input row (`rows || []`), in order. */
  method PrepareRows(rows: Option<seq<Row>>, lanes: nat) returns (out: seq<PreparedRow>)
    requires lanes >= 1
    ensures rows.None? ==> out == []
    ensures rows.Some? ==> |out| == |rows.value|
    ensures rows.Some? ==> forall k :: 0 <= k < |out| ==> PreparedFrom(out[k], rows.value[k], lanes)
  {
    out := [];
    var rs := if rows.Some? then rows.value else [];
    for k := 0 to |rs|
      invariant |out| == k && forall j :: 0 <= j < k ==> PreparedFrom(out[j], rs[j], lanes)
    {
      var r := rs[k];
      var cells := PrepareCells(lanes, Clamp(r.lane, lanes), ParentLanesOf(r, lanes));
      out := out + [PreparedRow(r.id, ShortOf(r), LabelsOf(r), r.message, cells)];
    }
  }

  // ---------------------------------------------------------------------------
  // Properties of a prepared row
  // ---------------------------------------------------------------------------

  /** Exactly one cell of a row is the node: the one at the row's lane. */
  lemma OneNode(cells: seq<Cell>, lanes: nat, lane: nat, pls: seq<nat>)
    requires CellsFor(cells, lanes, lane, pls) && lane < lanes
    ensures (set i | 0 <= i < |cells| && cells[i].node) == {lane}
  {
  }

  /** The connectors are the row's lane and the parent lanes, and nothing else. */
  lemma Connectors(cells: seq<Cell>, lanes: nat, lane: nat, pls: seq<nat>)
    requires CellsFor(cells, lanes, lane, pls) && lane < lanes
    requires forall k :: 0 <= k < |pls| ==> pls[k] < lanes
    ensures (set i | 0 <= i < |cells| && cells[i].conn) == {lane} + set k | 0 <= k < |pls| :: pls[k]
  {
    forall i | i in set k | 0 <= k < |pls| :: pls[k] ensures 0 <= i < |cells| && cells[i].conn {
      var k :| 0 <= k < |pls| && pls[k] == i;
      assert pls[k] in pls;
    }
    forall i | 0 <= i < |cells| && cells[i].conn && i != lane ensures i in set k | 0 <= k < |pls| :: pls[k] {
      var k :| 0 <= k < |pls| && pls[k] == i;
    }
  }

  /**
   * The horizontal line is one unbroken run through the node: it covers
   * the row's lane exactly when there is a parent lane, and any cell
   * between two covered cells is covered.
   */
  lemma HorizontalRun(cells: seq<Cell>, lanes: nat, lane: nat, pls: seq<nat>)
    requires CellsFor(cells, lanes, lane, pls) && lane < lanes
    ensures cells[lane].h <==> pls != []
    ensures forall i, j, m :: 0 <= i <= m <= j < |cells| && cells[i].h && cells[j].h ==> cells[m].h
  {
    if pls != [] {
      assert Min(lane, pls[0]) <= lane <= Max(lane, pls[0]);
    }
    forall i, j, m | 0 <= i <= m <= j < |cells| && cells[i].h && cells[j].h ensures cells[m].h {
      var a :| 0 <= a < |pls| && Min(lane, pls[a]) <= i <= Max(lane, pls[a]);
      var b :| 0 <= b < |pls| && Min(lane, pls[b]) <= j <= Max(lane, pls[b]);
      if m <= lane {
        assert Min(lane, pls[a]) <= m <= Max(lane, pls[a]);
      } else {
        assert Min(lane, pls[b]) <= m <= Max(lane, pls[b]);
      }
    }
  }

  // ---------------------------------------------------------------------------
  // formatRemoteLabel
  // ---------------------------------------------------------------------------

  const HeadsPrefix: string := "refs/heads/"
  const RemotesPrefix: string := "refs/remotes/"

  /** `[a]/[b]`, split at the first '/' of `s`. */
  function SplitLabel(s: string, idx: nat): string
    requires idx < |s|
  {
    "[" + s[..idx] + "]/[" + s[idx + 1..] + "]"
  }

  /**
   * `formatRemoteLabel(l)` for the string `String(l || '')`: a local branch
   * as `[local]/[b]`, a remote-tracking ref as `[remote]/[branch]` split at
   * the first '/', any other `a/b` as `[a]/[b]`, and a label without '/' as `[s]`.
   */
  function FormatRemoteLabel(s: string): (r: string)
    ensures r == "HEAD" <==> s == "HEAD"
    ensures s != "HEAD" ==> |r| >= 2 && r[0] == '[' && r[|r| - 1] == ']'
  {
    assert "HEAD"[0] == 'H';
    if s == "HEAD" then "HEAD"
    else if StartsWith(s, HeadsPrefix) then "[local]/[" + s[|HeadsPrefix|..] + "]"
    else if StartsWith(s, RemotesPrefix) then
      var rest := s[|RemotesPrefix|..];
      var idx := IndexOfChar(rest, '/');
      if idx == -1 then "[remote]/[" + rest + "]" else SplitLabel(rest, idx)
    else
      var idx := IndexOfChar(s, '/');
      if idx == -1 then "[" + s + "]" else SplitLabel(s, idx)
  }

  /** `a + "/" + b` with no '/' in `a` splits back into `a` and `b`. */
  lemma FirstSlash(a: string, b: string)
    requires '/' !in a
    ensures IndexOfChar(a + "/" + b, '/') == |a|
    ensures (a + "/" + b)[..|a|] == a && (a + "/" + b)[|a| + 1..] == b
  {
    var s := a + "/" + b;
    assert s[..|a|] == a;
    IndexOfCharAt(s, '/', |a|);
  }

  /** A local branch ref reads `[local]/[branch]`. */
  lemma FormatLocalBranch(b: string)
    ensures FormatRemoteLabel(HeadsPrefix + b) == "[local]/[" + b + "]"
  {
    assert (HeadsPrefix + b)[..|HeadsPrefix|] == HeadsPrefix;
    assert (HeadsPrefix + b)[|HeadsPrefix|..] == b;
  }

  /** A remote-tracking ref reads `[remote]/[branch]`, split at the first '/' after the prefix. */
  lemma FormatRemoteBranch(r: string, b: string)
    requires '/' !in r
    ensures FormatRemoteLabel(RemotesPrefix + r + "/" + b) == "[" + r + "]/[" + b + "]"
  {
    var s := RemotesPrefix + r + "/" + b;
    assert s[..|RemotesPrefix|] == RemotesPrefix;
    assert !StartsWith(s, HeadsPrefix) by {
      assert s[5] != HeadsPrefix[5];
    }
    assert s[|RemotesPrefix|..] == r + "/" + b;
    FirstSlash(r, b);
  }

  /** A remote-tracking ref with no further '/' reads `[remote]/[name]`. */
  lemma FormatRemoteOnly(x: string)
    requires '/' !in x
    ensures FormatRemoteLabel(RemotesPrefix + x) == "[remote]/[" + x + "]"
  {
    var s := RemotesPrefix + x;
    assert s[..|RemotesPrefix|] == RemotesPrefix;
    assert !StartsWith(s, HeadsPrefix) by {
      assert s[5] != HeadsPrefix[5];
    }
    assert s[|RemotesPrefix|..] == x;
    IndexOfCharSpec(x, '/');
  }

  /**
   * Any other label with a '/' reads `[a]/[b]`, split at its first '/';
   * that includes other refs such as `refs/tags/v1`, read `[refs]/[tags/v1]`.
   */
  lemma FormatOther(a: string, b: string)
    requires '/' !in a
    requires !StartsWith(a + "/" + b, HeadsPrefix) && !StartsWith(a + "/" + b, RemotesPrefix)
    ensures FormatRemoteLabel(a + "/" + b) == "[" + a + "]/[" + b + "]"
  {
    FirstSlash(a, b);
    assert (a + "/" + b)[|a|] in a + "/" + b;
  }

  /** Both ref prefixes start with `refs/`. */
  lemma NotRefPrefix(s: string)
    requires |s| < 5 || s[..5] != "refs/"
    ensures !StartsWith(s, HeadsPrefix) && !StartsWith(s, RemotesPrefix)
  {
    assert HeadsPrefix[..5] == "refs/" && RemotesPrefix[..5] == "refs/";
    if |s| >= |HeadsPrefix| {
      assert s[..|HeadsPrefix|][..5] == s[..5];
    }
    if |s| >= |RemotesPrefix| {
      assert s[..|RemotesPrefix|][..5] == s[..5];
    }
  }

  /** A label with no '/' at all, other than `HEAD`, reads `[s]`. */
  lemma FormatPlain(s: string)
    requires '/' !in s && s != "HEAD"
    ensures FormatRemoteLabel(s) == "[" + s + "]"
  {
    if |s| >= 5 {
      assert s[4] in s;
    }
    NotRef(s);
    IndexOfCharSpec(s, '/');
    assert IndexOfChar(s, '/') == -1;
  }

  /** Both ref prefixes have '/' at position 4, so a label without it has neither. */
  lemma NotRef(s: string)
    requires |s| < 5 || s[4] != '/'
    ensures !StartsWith(s, HeadsPrefix) && !StartsWith(s, RemotesPrefix)
  {
    assert HeadsPrefix[4] == '/' && RemotesPrefix[4] == '/';
  }

  /** Two labels can read the same: a local branch and a ref under a directory named `local`. */
  lemma FormatNotInjective(b: string)
    ensures FormatRemoteLabel(HeadsPrefix + b) == FormatRemoteLabel("local/" + b) == "[local]/[" + b + "]"
  {
    FormatLocalBranch(b);
    assert "local" + "/" + b == "local/" + b;
    assert ("local/" + b)[..5][0] == 'l';
    NotRefPrefix("local/" + b);
    FormatOther("local", b);
  }
}
