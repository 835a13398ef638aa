/**
 * The branch and label bookkeeping of the history view
 * (src/components/HistorySection.jsx): the local branches seen in the
 * history, the list of remotes shown beside it with the `local` entry merged
 * in, the ahead/behind status of remote branches, the index from ref labels
 * to commit ids, the commit a click on a branch selects, and the SSH address
 * offered for a GitHub HTTPS remote.
 *
 * The values come from the server as loosely typed JSON. A field that the
 * code tests with `typeof`, `Array.isArray` or truthiness is an `Option`
 * here (`None` for every value that fails the test), a label is a string or
 * something else, and an id that is missing is the empty string, which is
 * falsy as well. `localeCompare` is a parameter `leq`, a total preorder.
 */
module HistorySection {
  import opened Wrappers
  import opened Strings
  import Seqs
  import Sorting

  const HeadsPrefix: string := "refs/heads/"
  const RemotesPrefix: string := "refs/remotes/"
  const LocalName: string := "local"

  /** One entry of a row's `labels`: a string, or a value of another type. */
  datatype Label = Str(s: string) | NonString

  /** A history row: its id and, when `labels` is an array, its labels. */
  datatype Row = Row(id: string, labels: Option<seq<Label>>)

  /** The labels the loops visit: none when `labels` is not an array. */
  function LabelsOf(row: Row): seq<Label> {
    if row.labels.Some? then row.labels.value else []
  }

  /** `label.slice(prefix.length)` for a string label starting with `prefix`, when that rest is non-empty. */
  function RestAfter(l: Label, prefix: string): Option<string> {
    if l.Str? && StartsWith(l.s, prefix) && |l.s| > |prefix| then Some(l.s[|prefix|..]) else None
  }

  /** The rest after a prefix is exactly what completes the label. */
  lemma RestAfterSpec(l: Label, prefix: string, rest: string)
    ensures RestAfter(l, prefix) == Some(rest) <==> rest != "" && l == Str(prefix + rest)
  {
    if l.Str? && StartsWith(l.s, prefix) && |l.s| > |prefix| {
      assert l.s == prefix + l.s[|prefix|..];
    }
    if rest != "" && l == Str(prefix + rest) {
      assert (prefix + rest)[|prefix|..] == rest;
    }
  }

  // ---------------------------------------------------------------------------
  // localBranchesFromHistory
  // ---------------------------------------------------------------------------

  /** The branches the labels name under `refs/heads/`, in order, repeats included. */
  function LabelBranches(labels: seq<Label>): seq<string>
    decreases |labels|
  {
    if labels == [] then []
    else
      var b := RestAfter(labels[|labels| - 1], HeadsPrefix);
      LabelBranches(labels[..|labels| - 1]) + (if b.Some? then [b.value] else [])
  }

  /** The branches the rows' labels name, row after row. */
  function RowsBranches(rows: seq<Row>): seq<string>
    decreases |rows|
  {
    if rows == [] then []
    else RowsBranches(rows[..|rows| - 1]) + LabelBranches(LabelsOf(rows[|rows| - 1]))
  }

  /** `headBranch`, when it is a non-empty string. */
  function HeadEntry(headBranch: Option<string>): seq<string> {
    if headBranch.Some? && headBranch.value != "" then [headBranch.value] else []
  }

  /** The names the history's `Set` holds in the end, sorted with `leq`. */
  function HistoryBranches(rows: seq<Row>, headBranch: Option<string>, leq: (string, string) -> bool): seq<string> {
    Sorting.InsertionSort(Seqs.Dedup(RowsBranches(rows) + HeadEntry(headBranch)), leq)
  }

  /** One more label of the current row. */
  lemma LabelBranchesSnoc(labels: seq<Label>, j: nat)
    requires j < |labels|
    ensures var b := RestAfter(labels[j], HeadsPrefix);
      LabelBranches(labels[..j + 1]) == LabelBranches(labels[..j]) + (if b.Some? then [b.value] else [])
  {
    assert labels[..j + 1][..j] == labels[..j];
  }

  /** One more row. */
  lemma RowsBranchesSnoc(rows: seq<Row>, i: nat)
    requires i < |rows|
    ensures RowsBranches(rows[..i + 1]) == RowsBranches(rows[..i]) + LabelBranches(LabelsOf(rows[i]))
  {
    assert rows[..i + 1][..i] == rows[..i];
  }

  /** The `Set` bookkeeping of one label: adding `b`, if any, to the names so far. */
  lemma AddName(names: seq<string>, seen: seq<string>, more: seq<string>)
    requires names == Seqs.Dedup(seen) && |more| <= 1
    ensures Seqs.Dedup(seen + more) ==
      if more == [] || more[0] in names then names else names + more
  {
    if more == [] {
      assert seen + more == seen;
    } else {
      assert more == [more[0]];
      Seqs.DedupSnoc(seen, more[0]);
    }
  }

  lemma AppendAssoc3<T>(a: seq<T>, b: seq<T>, c: seq<T>, ab: seq<T>, bc: seq<T>)
    requires ab == a + b && bc == b + c
    ensures ab + c == a + bc
  {
  }

  /**
   * `localBranchesFromHistory`: the names of a `Set` filled, row by row and
   * label by label, with the rest of every `refs/heads/` label, then with
   * `headBranch`, and sorted with `leq`.
   */
  method LocalBranchesFromHistory(rows: seq<Row>, headBranch: Option<string>, leq: (string, string) -> bool)
    returns (branches: seq<string>)
    ensures branches == HistoryBranches(rows, headBranch, leq)
  {
    var names: seq<string> := [];
    var i := 0;
    while i < |rows|
      invariant 0 <= i <= |rows|
      invariant names == Seqs.Dedup(RowsBranches(rows[..i]))
    {
      var labels := LabelsOf(rows[i]);
      var j := 0;
      assert RowsBranches(rows[..i]) + LabelBranches(labels[..0]) == RowsBranches(rows[..i]) by {
        assert labels[..0] == [];
      }
      while j < |labels|
        invariant 0 <= j <= |labels|
        invariant names == Seqs.Dedup(RowsBranches(rows[..i]) + LabelBranches(labels[..j]))
      {
        var b := RestAfter(labels[j], HeadsPrefix);
        var more := if b.Some? then [b.value] else [];
        LabelBranchesSnoc(labels, j);
        AppendAssoc3(RowsBranches(rows[..i]), LabelBranches(labels[..j]), more,
          RowsBranches(rows[..i]) + LabelBranches(labels[..j]), LabelBranches(labels[..j + 1]));
        AddName(names, RowsBranches(rows[..i]) + LabelBranches(labels[..j]), more);
        if b.Some? && b.value !in names {
          names := names + [b.value];
        }
        j := j + 1;
      }
      assert labels[..j] == labels;
      RowsBranchesSnoc(rows, i);
      i := i + 1;
    }
    assert rows[..i] == rows;
    AddName(names, RowsBranches(rows), HeadEntry(headBranch));
    if headBranch.Some? && headBranch.value != "" && headBranch.value !in names {
      names := names + [headBranch.value];
    }
    branches := Sorting.InsertionSort(names, leq);
  }

  /** Some row carries the label `lab`. */
  predicate Labelled(rows: seq<Row>, lab: Label) {
    exists i :: 0 <= i < |rows| && lab in LabelsOf(rows[i])
  }

  lemma {:induction false} LabelBranchesMember(labels: seq<Label>, b: string)
    ensures b in LabelBranches(labels) <==> b != "" && Str(HeadsPrefix + b) in labels
    decreases |labels|
  {
    if labels != [] {
      var init := labels[..|labels| - 1];
      var last := labels[|labels| - 1];
      LabelBranchesMember(init, b);
      RestAfterSpec(last, HeadsPrefix, b);
      assert labels == init + [last];
    }
  }

  lemma {:induction false} RowsBranchesMember(rows: seq<Row>, b: string)
    ensures b in RowsBranches(rows) <==> b != "" && Labelled(rows, Str(HeadsPrefix + b))
    decreases |rows|
  {
    if rows != [] {
      var init := rows[..|rows| - 1];
      RowsBranchesMember(init, b);
      LabelBranchesMember(LabelsOf(rows[|rows| - 1]), b);
      var lab := Str(HeadsPrefix + b);
      if Labelled(rows, lab) {
        var i :| 0 <= i < |rows| && lab in LabelsOf(rows[i]);
        if i < |init| {
          assert rows[i] == init[i];
        }
      }
      if Labelled(init, lab) {
        var i :| 0 <= i < |init| && lab in LabelsOf(init[i]);
        assert rows[i] == init[i];
      }
    }
  }

  /**
   * The local branches of the history are sorted, hold no name twice, and
   * are exactly the non-empty rests of `refs/heads/` labels together with a
   * non-empty `headBranch`.
   */
  lemma LocalBranchesSpec(rows: seq<Row>, headBranch: Option<string>, leq: (string, string) -> bool, b: string)
    requires Sorting.Total(leq) && Sorting.Transitive(leq)
    ensures var r := HistoryBranches(rows, headBranch, leq);
      Sorting.SortedBy(r, leq) && Seqs.Distinct(r) &&
      (b in r <==> b != "" && (Labelled(rows, Str(HeadsPrefix + b)) || headBranch == Some(b)))
  {
    var all := RowsBranches(rows) + HeadEntry(headBranch);
    Seqs.DedupSpec(all);
    SortDistinct(Seqs.Dedup(all), leq, b);
    RowsBranchesMember(rows, b);
  }

  /** Sorting a duplicate-free list gives a sorted duplicate-free list of the same names. */
  lemma SortDistinct(d: seq<string>, leq: (string, string) -> bool, b: string)
    requires Sorting.Total(leq) && Sorting.Transitive(leq) && Seqs.Distinct(d)
    ensures var r := Sorting.InsertionSort(d, leq);
      Sorting.SortedBy(r, leq) && Seqs.Distinct(r) && (b in r <==> b in d)
  {
    var r := Sorting.InsertionSort(d, leq);
    Sorting.InsertionSortSorted(d, leq);
    Sorting.DistinctMultiset(d, r);
    assert b in r <==> b in multiset(r);
  }

  // ---------------------------------------------------------------------------
  // Maps filled in order: later entries overwrite earlier ones
  // ---------------------------------------------------------------------------

  /** The `Map` that `map.set(key, value)` for each entry in turn leaves. */
  function LastWins<V>(entries: seq<(string, V)>): map<string, V>
    decreases |entries|
  {
    if entries == [] then map[]
    else
      var last := entries[|entries| - 1];
      LastWins(entries[..|entries| - 1])[last.0 := last.1]
  }

  /**
   * `map.set` on a filled map overwrites the key. This only unfolds
   * `LastWins` once; it serves as a rewriting step for the loop proofs.
   */
  lemma LastWinsSnoc<V>(entries: seq<(string, V)>, key: string, value: V)
    ensures LastWins(entries + [(key, value)]) == LastWins(entries)[key := value]
  {
    assert (entries + [(key, value)])[..|entries|] == entries;
  }

  /** The position of the last entry setting `key`, or -1 when none does. */
  function LastIndexOf<V>(entries: seq<(string, V)>, key: string): (i: int)
    ensures -1 <= i < |entries|
    ensures i >= 0 ==> entries[i].0 == key && forall j :: i < j < |entries| ==> entries[j].0 != key
    ensures i < 0 ==> forall j :: 0 <= j < |entries| ==> entries[j].0 != key
    decreases |entries|
  {
    if entries == [] then -1
    else if entries[|entries| - 1].0 == key then |entries| - 1
    else LastIndexOf(entries[..|entries| - 1], key)
  }

  /**
   * A key is in the map exactly when some entry sets it, and it holds the
   * value of the last entry that does.
   */
  lemma {:induction false} LastWinsSpec<V>(entries: seq<(string, V)>, key: string)
    ensures key in LastWins(entries) <==> LastIndexOf(entries, key) >= 0
    ensures key in LastWins(entries) ==> LastWins(entries)[key] == entries[LastIndexOf(entries, key)].1
    decreases |entries|
  {
    if entries != [] {
      var init := entries[..|entries| - 1];
      LastWinsSpec(init, key);
      if entries[|entries| - 1].0 != key && LastIndexOf(init, key) >= 0 {
        assert entries[LastIndexOf(init, key)] == init[LastIndexOf(init, key)];
      }
    }
  }

  // ---------------------------------------------------------------------------
  // labelToId
  // ---------------------------------------------------------------------------

  /**
   * What one string label of a row sets in the index: the label itself;
   * for `refs/remotes/X` also `X`; for `refs/heads/X` also `local/X` and `X`.
   */
  function LabelAliases(l: Label, id: string): seq<(string, string)> {
    if l.NonString? then []
    else
      var remote := RestAfter(l, RemotesPrefix);
      var head := RestAfter(l, HeadsPrefix);
      [(l.s, id)] +
      (if StartsWith(l.s, RemotesPrefix) then (if remote.Some? then [(remote.value, id)] else [])
       else if head.Some? then [("local/" + head.value, id), (head.value, id)]
       else [])
  }

  /** The index entries of one row's labels, in order. */
  function RowAliases(labels: seq<Label>, id: string): seq<(string, string)>
    decreases |labels|
  {
    if labels == [] then []
    else RowAliases(labels[..|labels| - 1], id) + LabelAliases(labels[|labels| - 1], id)
  }

  /** The index entries of all rows, row after row. */
  function IndexEntries(rows: seq<Row>): seq<(string, string)>
    decreases |rows|
  {
    if rows == [] then []
    else IndexEntries(rows[..|rows| - 1]) + RowAliases(LabelsOf(rows[|rows| - 1]), rows[|rows| - 1].id)
  }

  /** `map.set` for each of a few entries in turn. */
  method SetAll(m0: map<string, string>, ghost before: seq<(string, string)>, entries: seq<(string, string)>)
    returns (m: map<string, string>)
    requires m0 == LastWins(before)
    ensures m == LastWins(before + entries)
  {
    m := m0;
    var k := 0;
    assert before + entries[..0] == before;
    while k < |entries|
      invariant 0 <= k <= |entries|
      invariant m == LastWins(before + entries[..k])
    {
      LastWinsSnoc(before + entries[..k], entries[k].0, entries[k].1);
      assert before + entries[..k + 1] == before + entries[..k] + [entries[k]];
      m := m[entries[k].0 := entries[k].1];
      k := k + 1;
    }
    assert entries[..k] == entries;
  }

  /** The `labelToId` loop: every string label of every row, with its aliases. */
  method LabelIndex(rows: seq<Row>) returns (index: map<string, string>)
    ensures index == LastWins(IndexEntries(rows))
  {
    index := map[];
    var i := 0;
    while i < |rows|
      invariant 0 <= i <= |rows|
      invariant index == LastWins(IndexEntries(rows[..i]))
    {
      var labels := LabelsOf(rows[i]);
      var j := 0;
      assert IndexEntries(rows[..i]) + RowAliases(labels[..0], rows[i].id) == IndexEntries(rows[..i]) by {
        assert labels[..0] == [];
      }
      while j < |labels|
        invariant 0 <= j <= |labels|
        invariant index == LastWins(IndexEntries(rows[..i]) + RowAliases(labels[..j], rows[i].id))
      {
        assert labels[..j + 1][..j] == labels[..j];
        AppendAssoc3(IndexEntries(rows[..i]), RowAliases(labels[..j], rows[i].id),
          LabelAliases(labels[j], rows[i].id),
          IndexEntries(rows[..i]) + RowAliases(labels[..j], rows[i].id), RowAliases(labels[..j + 1], rows[i].id));
        index := SetAll(index, IndexEntries(rows[..i]) + RowAliases(labels[..j], rows[i].id),
          LabelAliases(labels[j], rows[i].id));
        j := j + 1;
      }
      assert labels[..j] == labels;
      assert rows[..i + 1][..i] == rows[..i];
      i := i + 1;
    }
    assert rows[..i] == rows;
  }

  /** The keys one label sets. */
  lemma LabelAliasKeys(l: Label, id: string, key: string)
    requires l.Str?
    ensures (exists e :: e in LabelAliases(l, id) && e.0 == key) <==>
      key == l.s ||
      (StartsWith(l.s, RemotesPrefix) && RestAfter(l, RemotesPrefix) == Some(key)) ||
      (!StartsWith(l.s, RemotesPrefix) && RestAfter(l, HeadsPrefix).Some? &&
        (key == "local/" + RestAfter(l, HeadsPrefix).value || key == RestAfter(l, HeadsPrefix).value))
    ensures forall e :: e in LabelAliases(l, id) ==> e.1 == id
  {
  }

  /** The rows' ids, in order. */
  function Ids(rows: seq<Row>): (ids: seq<string>)
    ensures |ids| == |rows| && forall i :: 0 <= i < |rows| ==> ids[i] == rows[i].id
  {
    seq(|rows|, i requires 0 <= i < |rows| => rows[i].id)
  }

  /** Every value in the index is the id of some row. */
  lemma {:induction false} IndexValuesAreIds(rows: seq<Row>, e: (string, string))
    requires e in IndexEntries(rows)
    ensures e.1 in Ids(rows)
    decreases |rows|
  {
    var init := rows[..|rows| - 1];
    var last := rows[|rows| - 1];
    assert Ids(rows) == Ids(init) + [last.id];
    if e in IndexEntries(init) {
      IndexValuesAreIds(init, e);
    } else {
      RowAliasesIds(LabelsOf(last), last.id, e);
    }
  }

  lemma {:induction false} RowAliasesIds(labels: seq<Label>, id: string, e: (string, string))
    requires e in RowAliases(labels, id)
    ensures e.1 == id
    decreases |labels|
  {
    if e in RowAliases(labels[..|labels| - 1], id) {
      RowAliasesIds(labels[..|labels| - 1], id, e);
    } else {
      var l := labels[|labels| - 1];
      if l.Str? {
        LabelAliasKeys(l, id, e.0);
      }
    }
  }

  /** A label of a row sets its own key. */
  lemma {:induction false} RowAliasesHasLabel(labels: seq<Label>, id: string, s: string)
    requires Str(s) in labels
    ensures (s, id) in RowAliases(labels, id)
    decreases |labels|
  {
    var init := labels[..|labels| - 1];
    if labels[|labels| - 1] != Str(s) {
      assert labels == init + [labels[|labels| - 1]];
      RowAliasesHasLabel(init, id, s);
    }
  }

  /** A key that some entry sets has a last entry setting it. */
  lemma KeyOfEntry<V>(entries: seq<(string, V)>, e: (string, V))
    requires e in entries
    ensures LastIndexOf(entries, e.0) >= 0
  {
    var j :| 0 <= j < |entries| && entries[j] == e;
  }

  /** Every string label of every row is set in the index. */
  lemma {:induction false} IndexHasLabel(rows: seq<Row>, s: string)
    requires Labelled(rows, Str(s))
    ensures LastIndexOf(IndexEntries(rows), s) >= 0
    decreases |rows|
  {
    var init := rows[..|rows| - 1];
    var last := rows[|rows| - 1];
    var entries := IndexEntries(rows);
    assert entries == IndexEntries(init) + RowAliases(LabelsOf(last), last.id);
    if Str(s) in LabelsOf(last) {
      RowAliasesHasLabel(LabelsOf(last), last.id, s);
      KeyOfEntry(entries, (s, last.id));
    } else {
      var i :| 0 <= i < |rows| && Str(s) in LabelsOf(rows[i]);
      assert init[i] == rows[i];
      IndexHasLabel(init, s);
      var j := LastIndexOf(IndexEntries(init), s);
      KeyOfEntry(entries, IndexEntries(init)[j]);
    }
  }

  // ---------------------------------------------------------------------------
  // The branch click
  // ---------------------------------------------------------------------------

  /** `map.get(key)`, a missing key reading as the falsy empty id. */
  function Get(index: map<string, string>, key: string): string {
    if key in index then index[key] else ""
  }

  /** The label a branch entry of a remote stands for. */
  function BranchLabel(remoteName: string, b: string): string {
    if remoteName == LocalName then HeadsPrefix + b else RemotesPrefix + remoteName + "/" + b
  }

  /** The shorter key tried next: `local/b` or `remote/b`. */
  function Fallback(remoteName: string, b: string): string {
    if remoteName == LocalName then "local/" + b else remoteName + "/" + b
  }

  /**
   * The commit a click on branch `b` of `remoteName` selects: the full ref
   * label's id if it is truthy, else that of the shorter name, else that of
   * the bare branch name; nothing when all three are falsy.
   */
  function ClickTarget(index: map<string, string>, remoteName: string, b: string): (id: Option<string>)
    ensures Get(index, BranchLabel(remoteName, b)) != "" ==> id == Some(Get(index, BranchLabel(remoteName, b)))
    ensures id.Some? ==> id.value != "" && id.value in index.Values
    ensures id.None? <==>
      Get(index, BranchLabel(remoteName, b)) == "" && Get(index, Fallback(remoteName, b)) == "" && Get(index, b) == ""
  {
    var first := Get(index, BranchLabel(remoteName, b));
    var found := if first != "" then first else Or(Get(index, Fallback(remoteName, b)), Get(index, b));
    if found != "" then Some(found) else None
  }

  /** `if (id) setSelectedId(id)`: the selection moves only when the click finds a commit. */
  function SelectAfterClick(selected: string, index: map<string, string>, remoteName: string, b: string): (next: string)
    ensures ClickTarget(index, remoteName, b).None? ==> next == selected
    ensures ClickTarget(index, remoteName, b).Some? ==> next == ClickTarget(index, remoteName, b).value
  {
    var id := ClickTarget(index, remoteName, b);
    if id.Some? then id.value else selected
  }

  /** Every value the index entries carry is the id of some row. */
  lemma IndexEntriesIds(rows: seq<Row>)
    ensures forall i :: 0 <= i < |IndexEntries(rows)| ==> IndexEntries(rows)[i].1 in Ids(rows)
  {
    forall i | 0 <= i < |IndexEntries(rows)| {
      IndexValuesAreIds(rows, IndexEntries(rows)[i]);
    }
  }

  /** A string label of a row is a key of the index, and it maps to the id of some row. */
  lemma LabelledKeyInIndex(rows: seq<Row>, key: string)
    requires Labelled(rows, Str(key))
    ensures key in LastWins(IndexEntries(rows))
    ensures LastWins(IndexEntries(rows))[key] in Ids(rows)
  {
    IndexHasLabel(rows, key);
    IndexEntriesIds(rows);
    LastWinsSpec(IndexEntries(rows), key);
  }

  /** The value at a key of the index is the id of some row. */
  lemma IndexValueIsId(rows: seq<Row>, key: string)
    requires key in LastWins(IndexEntries(rows))
    ensures LastWins(IndexEntries(rows))[key] in Ids(rows)
  {
    var entries := IndexEntries(rows);
    LastWinsSpec(entries, key);
    IndexValuesAreIds(rows, entries[LastIndexOf(entries, key)]);
  }

  /**
   * Over the index of the history, a click on a branch whose full label is
   * on some row selects a commit, and whatever a click selects is the id of
   * a row; rows are assumed to have ids.
   */
  lemma ClickOnLabelledBranch(rows: seq<Row>, remoteName: string, b: string)
    requires forall i :: 0 <= i < |rows| ==> rows[i].id != ""
    ensures var target := ClickTarget(LastWins(IndexEntries(rows)), remoteName, b);
      (Labelled(rows, Str(BranchLabel(remoteName, b))) ==> target.Some?) &&
      (target.Some? ==> target.value in Ids(rows))
  {
    var index := LastWins(IndexEntries(rows));
    var target := ClickTarget(index, remoteName, b);
    if Labelled(rows, Str(BranchLabel(remoteName, b))) {
      LabelledKeyInIndex(rows, BranchLabel(remoteName, b));
    }
    if target.Some? {
      var key :| key in index && index[key] == target.value;
      IndexValueIsId(rows, key);
    }
  }

  // ---------------------------------------------------------------------------
  // remotesForDisplay
  // ---------------------------------------------------------------------------

  /**
   * One entry of a remote's `branchStatuses` as received. `remote` and
   * `branch` are `None` unless they are strings, `ahead` and `behind` unless
   * they are numbers; a null entry is a status without a branch.
   */
  datatype RawStatus = RawStatus(remote: Option<string>, branch: Option<string>, ahead: Option<int>, behind: Option<int>)

  /**
   * One remote as received. `name` and `url` are `None` unless they are
   * strings, `branches` and `branchStatuses` unless they are arrays; a null
   * entry is a remote without a name.
   */
  datatype RawRemote = RawRemote(
    name: Option<string>, url: Option<string>,
    branches: Option<seq<Label>>, branchStatuses: Option<seq<RawStatus>>)

  /** A normalised branch status. */
  datatype Status = Status(remote: string, branch: string, ahead: int, behind: int)

  /** A normalised remote, as the list beside the history shows it. */
  datatype Remote = Remote(name: string, url: Option<string>, branches: seq<string>, branchStatuses: seq<Status>)

  /** A status with a string branch, its remote falling back to `remoteName` and its counts to 0. */
  function NormalizeStatus(s: RawStatus, remoteName: string): Status
    requires s.branch.Some?
  {
    Status(
      if s.remote.Some? && s.remote.value != "" then s.remote.value else remoteName,
      s.branch.value,
      if s.ahead.Some? then s.ahead.value else 0,
      if s.behind.Some? then s.behind.value else 0)
  }

  /** The statuses with a string branch, normalised, in order. */
  function NormalizeStatuses(ss: seq<RawStatus>, remoteName: string): seq<Status> {
    if ss == [] then []
    else
      (if ss[0].branch.Some? then [NormalizeStatus(ss[0], remoteName)] else []) +
      NormalizeStatuses(ss[1..], remoteName)
  }

  /** Every status with a string branch is kept. */
  lemma {:induction false} StatusKept(ss: seq<RawStatus>, remoteName: string, i: nat)
    requires i < |ss| && ss[i].branch.Some?
    ensures NormalizeStatus(ss[i], remoteName) in NormalizeStatuses(ss, remoteName)
  {
    if i > 0 {
      StatusKept(ss[1..], remoteName, i - 1);
    }
  }

  /** Every status kept comes from a status with a string branch. */
  lemma {:induction false} StatusFrom(ss: seq<RawStatus>, remoteName: string, st: Status)
    requires st in NormalizeStatuses(ss, remoteName)
    ensures exists i :: 0 <= i < |ss| && ss[i].branch.Some? && st == NormalizeStatus(ss[i], remoteName)
  {
    if !(ss[0].branch.Some? && st == NormalizeStatus(ss[0], remoteName)) {
      StatusFrom(ss[1..], remoteName, st);
      var i :| 0 <= i < |ss[1..]| && ss[1..][i].branch.Some? && st == NormalizeStatus(ss[1..][i], remoteName);
      assert ss[i + 1] == ss[1..][i];
    }
  }

  /**
   * A normalised status names its branch, counts 0 for a count that is not
   * a number, and names the given remote unless it names a non-empty one.
   */
  lemma NormalizeStatusDefaults(s: RawStatus, remoteName: string)
    requires s.branch.Some?
    ensures var st := NormalizeStatus(s, remoteName);
      st.branch == s.branch.value &&
      (s.ahead.None? ==> st.ahead == 0) && (s.behind.None? ==> st.behind == 0) &&
      (s.ahead.Some? ==> st.ahead == s.ahead.value) && (s.behind.Some? ==> st.behind == s.behind.value) &&
      (st.remote == remoteName <==> s.remote.None? || s.remote.value == "" || s.remote.value == remoteName) &&
      (remoteName != "" ==> st.remote != "")
  {
  }

  /** The branch entries that are non-empty strings, in order. */
  function StringBranches(labels: seq<Label>): seq<string> {
    if labels == [] then []
    else (if labels[0].Str? && labels[0].s != "" then [labels[0].s] else []) + StringBranches(labels[1..])
  }

  lemma {:induction false} StringBranchesMember(labels: seq<Label>, b: string)
    ensures b in StringBranches(labels) <==> b != "" && Str(b) in labels
  {
    if labels != [] {
      StringBranchesMember(labels[1..], b);
      assert labels == [labels[0]] + labels[1..];
    }
  }

  /**
   * One remote with a string name: its url unless empty, its distinct
   * non-empty string branches sorted with `leq`, and its normalised statuses.
   */
  function NormalizeRemote(r: RawRemote, leq: (string, string) -> bool): Remote
    requires r.name.Some?
  {
    Remote(
      r.name.value,
      if r.url == Some("") then None else r.url,
      Sorting.InsertionSort(Seqs.Dedup(StringBranches(if r.branches.Some? then r.branches.value else [])), leq),
      if r.branchStatuses.Some? then NormalizeStatuses(r.branchStatuses.value, r.name.value) else [])
  }

  /** The remotes with a string name, normalised, in order. */
  function NormalizeRemotes(remotes: seq<RawRemote>, leq: (string, string) -> bool): seq<Remote> {
    if remotes == [] then []
    else
      (if remotes[0].name.Some? then [NormalizeRemote(remotes[0], leq)] else []) +
      NormalizeRemotes(remotes[1..], leq)
  }

  /** Every remote with a string name is kept. */
  lemma {:induction false} RemoteKept(remotes: seq<RawRemote>, leq: (string, string) -> bool, i: nat)
    requires i < |remotes| && remotes[i].name.Some?
    ensures NormalizeRemote(remotes[i], leq) in NormalizeRemotes(remotes, leq)
  {
    if i > 0 {
      RemoteKept(remotes[1..], leq, i - 1);
    }
  }

  /** Every remote kept comes from a remote with a string name. */
  lemma {:induction false} RemoteFrom(remotes: seq<RawRemote>, leq: (string, string) -> bool, n: Remote)
    requires n in NormalizeRemotes(remotes, leq)
    ensures exists i :: 0 <= i < |remotes| && remotes[i].name.Some? && n == NormalizeRemote(remotes[i], leq)
  {
    var rest := remotes[1..];
    if !(remotes[0].name.Some? && n == NormalizeRemote(remotes[0], leq)) {
      assert n in NormalizeRemotes(rest, leq);
      RemoteFrom(rest, leq, n);
      var i :| 0 <= i < |rest| && rest[i].name.Some? && n == NormalizeRemote(rest[i], leq);
      assert remotes[i + 1] == rest[i];
    }
  }

  /**
   * A normalised remote keeps its name, has no empty url, lists its
   * branches sorted and once each, exactly the non-empty string entries of
   * an array `branches`, and keeps exactly the statuses with a string
   * branch.
   */
  lemma NormalizeRemoteSpec(r: RawRemote, leq: (string, string) -> bool, b: string, st: Status)
    requires r.name.Some? && Sorting.Total(leq) && Sorting.Transitive(leq)
    ensures var n := NormalizeRemote(r, leq);
      n.name == r.name.value && n.url != Some("") && (r.url != Some("") ==> n.url == r.url) &&
      Sorting.SortedBy(n.branches, leq) && Seqs.Distinct(n.branches) &&
      (b in n.branches <==> b != "" && r.branches.Some? && Str(b) in r.branches.value) &&
      (st in n.branchStatuses <==>
        (r.branchStatuses.Some? &&
         exists i :: 0 <= i < |r.branchStatuses.value| && r.branchStatuses.value[i].branch.Some? &&
           st == NormalizeStatus(r.branchStatuses.value[i], r.name.value)))
  {
    var labels := if r.branches.Some? then r.branches.value else [];
    StringBranchesMember(labels, b);
    Seqs.DedupSpec(StringBranches(labels));
    SortDistinct(Seqs.Dedup(StringBranches(labels)), leq, b);
    if r.branchStatuses.Some? {
      var ss := r.branchStatuses.value;
      if st in NormalizeStatuses(ss, r.name.value) {
        StatusFrom(ss, r.name.value, st);
      }
      if exists i :: 0 <= i < |ss| && ss[i].branch.Some? && st == NormalizeStatus(ss[i], r.name.value) {
        var i :| 0 <= i < |ss| && ss[i].branch.Some? && st == NormalizeStatus(ss[i], r.name.value);
        StatusKept(ss, r.name.value, i);
      }
    }
  }

  /** `findIndex` of the entry named `local`, or -1. */
  function FindLocal(remotes: seq<Remote>): (i: int)
    ensures -1 <= i < |remotes|
    ensures i >= 0 ==> remotes[i].name == LocalName && forall j :: 0 <= j < i ==> remotes[j].name != LocalName
    ensures i < 0 ==> forall j :: 0 <= j < |remotes| ==> remotes[j].name != LocalName
  {
    if remotes == [] then -1
    else if remotes[0].name == LocalName then 0
    else
      var k := FindLocal(remotes[1..]);
      if k < 0 then -1 else k + 1
  }

  /** The `local` entry with the history's branches merged in and its statuses dropped. */
  function MergeLocal(local: Remote, history: seq<string>, leq: (string, string) -> bool): Remote {
    local.(branches := Sorting.InsertionSort(Seqs.Dedup(local.branches + history), leq), branchStatuses := [])
  }

  /** The list of remotes that `remotesForDisplay` computes. */
  function DisplayRemotes(remotes: seq<RawRemote>, history: seq<string>, leq: (string, string) -> bool): seq<Remote> {
    var normalized := NormalizeRemotes(remotes, leq);
    var i := FindLocal(normalized);
    if i >= 0 then normalized[i := MergeLocal(normalized[i], history, leq)]
    else if history != [] then [Remote(LocalName, None, history, [])] + normalized
    else normalized
  }

  /**
   * `remotesForDisplay`: normalise the remotes, then either overwrite the
   * first `local` entry with the history's branches merged into a `Set` of
   * its own, or put a `local` entry holding the history's branches in
   * front, or, with no history branches, leave the list as it is.
   */
  method RemotesForDisplay(remotes: seq<RawRemote>, history: seq<string>, leq: (string, string) -> bool)
    returns (display: seq<Remote>)
    ensures display == DisplayRemotes(remotes, history, leq)
  {
    display := NormalizeRemotes(remotes, leq);
    var localIdx := FindLocal(display);
    if localIdx >= 0 {
      var local := display[localIdx];
      var merged := MergeBranches(local.branches, history);
      display := display[localIdx := local.(branches := Sorting.InsertionSort(merged, leq), branchStatuses := [])];
    } else if |history| > 0 {
      display := [Remote(LocalName, None, history, [])] + display;
    }
  }

  /** `new Set(branches)`, then `add` of every history branch in turn. */
  method MergeBranches(branches: seq<string>, history: seq<string>) returns (merged: seq<string>)
    ensures merged == Seqs.Dedup(branches + history)
  {
    merged := Seqs.Dedup(branches);
    var k := 0;
    assert branches + history[..0] == branches;
    while k < |history|
      invariant 0 <= k <= |history|
      invariant merged == Seqs.Dedup(branches + history[..k])
    {
      DedupExtend(merged, branches, history, k);
      if history[k] !in merged {
        merged := merged + [history[k]];
      }
      k := k + 1;
    }
    assert history[..k] == history;
  }

  /** One more history branch added to the `Set`. */
  lemma DedupExtend(merged: seq<string>, branches: seq<string>, history: seq<string>, k: nat)
    requires k < |history| && merged == Seqs.Dedup(branches + history[..k])
    ensures Seqs.Dedup(branches + history[..k + 1]) ==
      if history[k] in merged then merged else merged + [history[k]]
  {
    var seen := branches + history[..k];
    assert branches + history[..k + 1] == seen + [history[k]];
    AddName(merged, seen, [history[k]]);
  }

  /**
   * With a `local` entry among the remotes, the list keeps its length and
   * every other entry; the `local` entry stays where it was, keeps its url,
   * loses its statuses and lists, sorted and once each, the branches it had
   * together with the history's.
   */
  lemma DisplayMergesLocal(remotes: seq<RawRemote>, history: seq<string>, leq: (string, string) -> bool, b: string)
    requires Sorting.Total(leq) && Sorting.Transitive(leq)
    requires FindLocal(NormalizeRemotes(remotes, leq)) >= 0
    ensures var n := NormalizeRemotes(remotes, leq);
      var i := FindLocal(n);
      var d := DisplayRemotes(remotes, history, leq);
      |d| == |n| && FindLocal(d) == i &&
      d[i].name == LocalName && d[i].url == n[i].url && d[i].branchStatuses == [] &&
      Sorting.SortedBy(d[i].branches, leq) && Seqs.Distinct(d[i].branches) &&
      (b in d[i].branches <==> b in n[i].branches || b in history) &&
      (forall j :: 0 <= j < |n| && j != i ==> d[j] == n[j])
  {
    var n := NormalizeRemotes(remotes, leq);
    var i := FindLocal(n);
    var all := n[i].branches + history;
    Seqs.DedupSpec(all);
    SortDistinct(Seqs.Dedup(all), leq, b);
    var d := DisplayRemotes(remotes, history, leq);
    FindLocalSame(n, d, i);
  }

  /** Replacing entries from position `i` on, keeping the name at `i`, keeps the first `local` entry at `i`. */
  lemma FindLocalSame(n: seq<Remote>, d: seq<Remote>, i: int)
    requires i == FindLocal(n) && i >= 0 && |d| == |n|
    requires d[i].name == LocalName && forall j :: 0 <= j < i ==> d[j] == n[j]
    ensures FindLocal(d) == i
  {
  }

  /**
   * Without a `local` entry, history branches put one in front, holding
   * exactly those branches and no url or statuses; without history branches
   * the list is the normalised one and still has no `local` entry.
   */
  lemma DisplayAddsLocal(remotes: seq<RawRemote>, history: seq<string>, leq: (string, string) -> bool)
    requires FindLocal(NormalizeRemotes(remotes, leq)) < 0
    ensures var n := NormalizeRemotes(remotes, leq);
      var d := DisplayRemotes(remotes, history, leq);
      (history != [] ==>
        |d| == |n| + 1 && FindLocal(d) == 0 &&
        d[0] == Remote(LocalName, None, history, []) && d[1..] == n) &&
      (history == [] ==> d == n && FindLocal(d) < 0)
  {
  }

  /** The branches the list shows under `local`: those of its `local` entry, if any. */
  function ShownLocalBranches(display: seq<Remote>): seq<string> {
    var i := FindLocal(display);
    if i >= 0 then display[i].branches else []
  }

  /**
   * Fed with the history's branches, the list shows under `local` every
   * branch of the history and, when the remotes have a `local` entry, its
   * branches, and nothing else; the names are sorted and appear once each.
   */
  lemma ShownLocalBranchesSpec(
    remotes: seq<RawRemote>, rows: seq<Row>, headBranch: Option<string>,
    leq: (string, string) -> bool, b: string)
    requires Sorting.Total(leq) && Sorting.Transitive(leq)
    ensures var n := NormalizeRemotes(remotes, leq);
      var shown := ShownLocalBranches(DisplayRemotes(remotes, HistoryBranches(rows, headBranch, leq), leq));
      Sorting.SortedBy(shown, leq) && Seqs.Distinct(shown) &&
      (b in shown <==>
        (b != "" && (Labelled(rows, Str(HeadsPrefix + b)) || headBranch == Some(b))) ||
        (FindLocal(n) >= 0 && b in n[FindLocal(n)].branches))
  {
    var history := HistoryBranches(rows, headBranch, leq);
    LocalBranchesSpec(rows, headBranch, leq, b);
    if FindLocal(NormalizeRemotes(remotes, leq)) >= 0 {
      DisplayMergesLocal(remotes, history, leq, b);
    } else {
      DisplayAddsLocal(remotes, history, leq);
    }
  }

  // ---------------------------------------------------------------------------
  // remoteBranchStatusMap
  // ---------------------------------------------------------------------------

  /** The key of a remote branch's status: `remote:branch`. */
  function StatusKey(remoteName: string, branch: string): string {
    remoteName + ":" + branch
  }

  /** The entries one remote's statuses set, in order. */
  function RemoteStatusEntries(remoteName: string, statuses: seq<Status>): seq<(string, Status)>
    decreases |statuses|
  {
    if statuses == [] then []
    else
      var st := statuses[|statuses| - 1];
      RemoteStatusEntries(remoteName, statuses[..|statuses| - 1]) + [(StatusKey(remoteName, st.branch), st)]
  }

  /** The entries all remotes but `local` set, remote after remote. */
  function StatusEntries(display: seq<Remote>): seq<(string, Status)>
    decreases |display|
  {
    if display == [] then []
    else
      var r := display[|display| - 1];
      StatusEntries(display[..|display| - 1]) +
      (if r.name == LocalName then [] else RemoteStatusEntries(r.name, r.branchStatuses))
  }

  /** The `remoteBranchStatusMap` loop over the listed remotes and their statuses. */
  method StatusMap(display: seq<Remote>) returns (m: map<string, Status>)
    ensures m == LastWins(StatusEntries(display))
  {
    m := map[];
    var i := 0;
    while i < |display|
      invariant 0 <= i <= |display|
      invariant m == LastWins(StatusEntries(display[..i]))
    {
      assert display[..i + 1][..i] == display[..i];
      var remote := display[i];
      if remote.name != LocalName {
        var statuses := remote.branchStatuses;
        var j := 0;
        assert StatusEntries(display[..i]) + RemoteStatusEntries(remote.name, statuses[..0]) == StatusEntries(display[..i]) by {
          assert statuses[..0] == [];
        }
        while j < |statuses|
          invariant 0 <= j <= |statuses|
          invariant m == LastWins(StatusEntries(display[..i]) + RemoteStatusEntries(remote.name, statuses[..j]))
        {
          var st := statuses[j];
          assert statuses[..j + 1][..j] == statuses[..j];
          AppendAssoc3(StatusEntries(display[..i]), RemoteStatusEntries(remote.name, statuses[..j]),
            [(StatusKey(remote.name, st.branch), st)],
            StatusEntries(display[..i]) + RemoteStatusEntries(remote.name, statuses[..j]),
            RemoteStatusEntries(remote.name, statuses[..j + 1]));
          LastWinsSnoc(StatusEntries(display[..i]) + RemoteStatusEntries(remote.name, statuses[..j]),
            StatusKey(remote.name, st.branch), st);
          m := m[StatusKey(remote.name, st.branch) := st];
          j := j + 1;
        }
        assert statuses[..j] == statuses;
      } else {
        assert StatusEntries(display[..i + 1]) == StatusEntries(display[..i]);
      }
      i := i + 1;
    }
    assert display[..i] == display;
  }

  /** Every entry comes from a status of a remote other than `local`, under that remote's key. */
  lemma {:induction false} StatusEntryFrom(display: seq<Remote>, e: (string, Status))
    requires e in StatusEntries(display)
    ensures exists i ::
      0 <= i < |display| && display[i].name != LocalName &&
      e.1 in display[i].branchStatuses && e.0 == StatusKey(display[i].name, e.1.branch)
    decreases |display|
  {
    var init := display[..|display| - 1];
    var r := display[|display| - 1];
    if e in StatusEntries(init) {
      StatusEntryFrom(init, e);
      var i :| 0 <= i < |init| && init[i].name != LocalName &&
        e.1 in init[i].branchStatuses && e.0 == StatusKey(init[i].name, e.1.branch);
      assert display[i] == init[i];
    } else {
      RemoteStatusEntryFrom(r.name, r.branchStatuses, e);
    }
  }

  lemma {:induction false} RemoteStatusEntryFrom(remoteName: string, statuses: seq<Status>, e: (string, Status))
    requires e in RemoteStatusEntries(remoteName, statuses)
    ensures e.1 in statuses && e.0 == StatusKey(remoteName, e.1.branch)
    decreases |statuses|
  {
    var init := statuses[..|statuses| - 1];
    if e in RemoteStatusEntries(remoteName, init) {
      RemoteStatusEntryFrom(remoteName, init, e);
    }
  }

  /** Every status of a remote other than `local` sets its key. */
  lemma {:induction false} StatusEntryOf(display: seq<Remote>, i: nat, st: Status)
    requires i < |display| && display[i].name != LocalName && st in display[i].branchStatuses
    ensures LastIndexOf(StatusEntries(display), StatusKey(display[i].name, st.branch)) >= 0
    decreases |display|
  {
    var init := display[..|display| - 1];
    var r := display[|display| - 1];
    var entries := StatusEntries(display);
    if i < |init| {
      assert init[i] == display[i];
      StatusEntryOf(init, i, st);
      var j := LastIndexOf(StatusEntries(init), StatusKey(display[i].name, st.branch));
      assert entries[j] == StatusEntries(init)[j];
      KeyOfEntry(entries, StatusEntries(init)[j]);
    } else {
      RemoteStatusEntryOf(r.name, r.branchStatuses, st);
      KeyOfEntry(entries, (StatusKey(r.name, st.branch), st));
    }
  }

  lemma {:induction false} RemoteStatusEntryOf(remoteName: string, statuses: seq<Status>, st: Status)
    requires st in statuses
    ensures (StatusKey(remoteName, st.branch), st) in RemoteStatusEntries(remoteName, statuses)
    decreases |statuses|
  {
    var init := statuses[..|statuses| - 1];
    if statuses[|statuses| - 1] != st {
      assert statuses == init + [statuses[|statuses| - 1]];
      RemoteStatusEntryOf(remoteName, init, st);
    }
  }

  /**
   * The status map has a `remote:branch` key for every status of every
   * remote other than `local`, and nothing else: each value is a status of
   * such a remote, stored under that remote's name and its branch, and it
   * is the last status written under that key.
   */
  lemma StatusMapSpec(display: seq<Remote>, key: string, i: nat, st: Status)
    ensures var m := LastWins(StatusEntries(display));
      (i < |display| && display[i].name != LocalName && st in display[i].branchStatuses ==>
        StatusKey(display[i].name, st.branch) in m) &&
      (key in m ==>
        exists k :: 0 <= k < |display| && display[k].name != LocalName &&
          m[key] in display[k].branchStatuses && key == StatusKey(display[k].name, m[key].branch)) &&
      (key in m <==> LastIndexOf(StatusEntries(display), key) >= 0) &&
      (key in m ==> m[key] == StatusEntries(display)[LastIndexOf(StatusEntries(display), key)].1)
  {
    var entries := StatusEntries(display);
    if i < |display| && display[i].name != LocalName && st in display[i].branchStatuses {
      StatusEntryOf(display, i, st);
      LastWinsSpec(entries, StatusKey(display[i].name, st.branch));
    }
    LastWinsSpec(entries, key);
    if key in LastWins(entries) {
      StatusEntryFrom(display, entries[LastIndexOf(entries, key)]);
    }
  }

  // ---------------------------------------------------------------------------
  // deriveSsh
  // ---------------------------------------------------------------------------

  const HttpsGithub: string := "https://github.com/"
  const SshGithub: string := "git@github.com:"

  /** The characters `.` does not match in a regular expression. */
  predicate IsLineTerminator(c: char) {
    c == '\n' || c == '\r' || c == '\U{2028}' || c == '\U{2029}'
  }

  /** `s` starts with `prefix` when ASCII letters are compared regardless of case (the `i` flag). */
  predicate StartsWithIgnoringCase(s: string, prefix: string) {
    |s| >= |prefix| && forall k :: 0 <= k < |prefix| ==> LowerChar(s[k]) == LowerChar(prefix[k])
  }

  /** `/^https:\/\/github\.com\/(.+)$/i`: the GitHub prefix in any case, then at least one character, none a line terminator. */
  predicate MatchesGithubHttps(u: string) {
    StartsWithIgnoringCase(u, HttpsGithub) && |u| > |HttpsGithub| &&
    forall k :: |HttpsGithub| <= k < |u| ==> !IsLineTerminator(u[k])
  }

  /**
   * `deriveSsh`: the SSH address of a GitHub HTTPS address, keeping the
   * owner/repository part as written; null for a missing, falsy or
   * non-string value and for any other address.
   */
  function DeriveSsh(httpsUrl: Option<string>): (r: Option<string>)
    ensures r.Some? <==> httpsUrl.Some? && MatchesGithubHttps(httpsUrl.value)
    ensures r.Some? ==> r.value == SshGithub + httpsUrl.value[|HttpsGithub|..] && |r.value| > |SshGithub|
  {
    if httpsUrl.None? || httpsUrl.value == "" then None
    else if MatchesGithubHttps(httpsUrl.value) then Some(SshGithub + httpsUrl.value[|HttpsGithub|..])
    else None
  }

  /**
   * An address of the form GitHub prefix (in any case) and a path without
   * line breaks becomes `git@github.com:` and that same path; every other
   * input gives null.
   */
  lemma DeriveSshSpec(prefix: string, path: string)
    requires |prefix| == |HttpsGithub|
    ensures DeriveSsh(Some(prefix + path)) ==
      if StartsWithIgnoringCase(prefix, HttpsGithub) && path != [] &&
         (forall k :: 0 <= k < |path| ==> !IsLineTerminator(path[k]))
      then Some(SshGithub + path) else None
  {
    var u := prefix + path;
    assert u[|HttpsGithub|..] == path;
    assert forall k :: 0 <= k < |prefix| ==> u[k] == prefix[k];
    assert forall k :: |HttpsGithub| <= k < |u| ==> u[k] == path[k - |HttpsGithub|];
  }
  /** An address no longer than the GitHub prefix has no path after it, and gives null. */
  lemma DeriveSshShort(u: string)
    requires |u| <= |HttpsGithub|
    ensures DeriveSsh(Some(u)) == None
  {
  }


  /** Null and non-string input gives null. */
  lemma DeriveSshNull()
    ensures DeriveSsh(None) == None
  {
  }
}
