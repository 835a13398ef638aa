/**
 * The folder tree of the file lists (src/components/TreeView.jsx and its
 * typed twin src/components/TreeView.tsx): `buildTree` turns '/'-separated
 * paths into a prefix tree, `toggle` opens or closes one folder,
 * `collectFolderPaths` lists the folders, the expand-all and collapse-all
 * signals replace the set of open folders, and `NodeList` decides whether a
 * node is drawn as a file or as a folder.
 *
 * The tree of JavaScript objects is held as a table from each node's
 * segments (the root's are `[]`) to the node. A node lists its children's
 * names in the insertion order of its `children` Map, and
 * `cur.children.get(part)` is the entry at the node's segments extended by
 * `part`.
 */
module TreeView {
  import opened Wrappers
  import opened Strings
  import Seqs

  /** A tree node `{ name, path, children, isFile }`. */
  datatype Node = Node(name: string, path: string, isFile: bool, children: seq<string>)

  type Tree = map<seq<string>, Node>

  /** A tree holding only the root `{ name: '', path: '', children: new Map() }`. */
  const EmptyTree: Tree := map[[] := Node("", "", false, [])]

  /** `p.split('/').filter(Boolean)`: the non-empty segments of a path. */
  function Segments(p: string): seq<string> {
    NonEmpty(Split(p, '/'))
  }

  // ---------------------------------------------------------------------------
  // buildTree
  // ---------------------------------------------------------------------------

  /**
   * One pass of the inner loop: from the node at `key`, move to its child
   * `part`, creating it with path `path` (and listing it among the
   * children) when it is missing; on the last segment the child is marked
   * as a file.
   */
  function Descend(t: Tree, key: seq<string>, part: string, path: string, last: bool): (r: Tree)
    requires key in t
    ensures key + [part] in r && ([] in t ==> [] in r)
  {
    var child := key + [part];
    var t1 :=
      if child in t then t
      else t[key := t[key].(children := t[key].children + [part])][child := Node(part, path, false, [])];
    if last then t1[child := t1[child].(isFile := true)] else t1
  }

  /**
   * The tree after the remaining passes of the inner loop: the cursor is at
   * `key` and `rest` are the segments still to walk.
   */
  function InsertFrom(t: Tree, key: seq<string>, rest: seq<string>): (r: Tree)
    requires key in t
    ensures [] in t ==> [] in r
    decreases |rest|
  {
    if rest == [] then t
    else
      var child := key + [rest[0]];
      InsertFrom(Descend(t, key, rest[0], Join(child, '/'), |rest| == 1), child, rest[1..])
  }

  /** One pass of the walk over `parts[idx..]`, with the cursor at `parts[..idx]`. */
  lemma InsertFromStep(t: Tree, parts: seq<string>, idx: nat)
    requires idx < |parts| && parts[..idx] in t
    ensures var child := parts[..idx + 1];
      child == parts[..idx] + [parts[idx]] &&
      InsertFrom(t, parts[..idx], parts[idx..]) ==
        InsertFrom(Descend(t, parts[..idx], parts[idx], Join(child, '/'), idx == |parts| - 1), child, parts[idx + 1..])
  {
    assert parts[..idx + 1] == parts[..idx] + [parts[idx]];
    assert parts[idx..][1..] == parts[idx + 1..];
  }

  /** The tree after inserting one path's segments, starting at the root. */
  function InsertPath(t: Tree, parts: seq<string>): (r: Tree)
    requires [] in t
    ensures [] in r
  {
    InsertFrom(t, [], parts)
  }

  /** `buildTree(paths)`, path by path. */
  function Build(paths: seq<string>): (t: Tree)
    ensures [] in t
    decreases |paths|
  {
    if paths == [] then EmptyTree
    else InsertPath(Build(paths[..|paths| - 1]), Segments(paths[|paths| - 1]))
  }

  /** The running `acc` of the inner loop is the segments so far joined with '/'. */
  lemma StepPath(parts: seq<string>, idx: nat)
    requires idx < |parts|
    requires forall k :: 0 <= k < |parts| ==> parts[k] != ""
    ensures var acc := Join(parts[..idx], '/');
      Join(parts[..idx + 1], '/') == if acc != "" then acc + "/" + parts[idx] else parts[idx]
  {
    assert parts[..idx + 1] == parts[..idx] + [parts[idx]];
    if idx > 0 {
      JoinSnoc(parts[..idx], parts[idx], '/');
      assert parts[..idx] == parts[..idx - 1] + [parts[idx - 1]];
      if idx > 1 {
        JoinSnoc(parts[..idx - 1], parts[idx - 1], '/');
      }
      assert |Join(parts[..idx], '/')| >= |parts[idx - 1]| > 0;
    }
  }

  /** One pass of the inner loop, updating the nodes in place. */
  method DescendStep(t0: Tree, cur: seq<string>, part: string, acc: string, last: bool)
    returns (t: Tree, next: seq<string>)
    requires cur in t0
    ensures t == Descend(t0, cur, part, acc, last) && next == cur + [part]
  {
    t := t0;
    next := cur + [part];
    if next !in t {
      t := t[cur := t[cur].(children := t[cur].children + [part])];
      t := t[next := Node(part, acc, false, [])];
    }
    if last {
      t := t[next := t[next].(isFile := true)];
    }
  }

  /** The inner loop of `buildTree`: the cursor walks down from the root, creating missing children. */
  method InsertSegments(t0: Tree, parts: seq<string>) returns (t: Tree)
    requires [] in t0
    requires forall k :: 0 <= k < |parts| ==> parts[k] != ""
    ensures t == InsertPath(t0, parts)
  {
    t := t0;
    var cur: seq<string> := [];
    var acc := "";
    for idx := 0 to |parts|
      invariant cur == parts[..idx] && acc == Join(parts[..idx], '/')
      invariant cur in t && InsertFrom(t, cur, parts[idx..]) == InsertPath(t0, parts)
    {
      var part := parts[idx];
      var last := idx == |parts| - 1;
      StepPath(parts, idx);
      InsertFromStep(t, parts, idx);
      acc := if acc != "" then acc + "/" + part else part;
      t, cur := DescendStep(t, cur, part, acc, last);
    }
  }

  /** `buildTree`: every path's segments are inserted in turn. */
  method BuildTree(paths: seq<string>) returns (t: Tree)
    ensures t == Build(paths)
  {
    t := EmptyTree;
    for i := 0 to |paths|
      invariant t == Build(paths[..i])
    {
      assert paths[..i + 1][..i] == paths[..i];
      var parts := Segments(paths[i]);
      NonEmptySpec(Split(paths[i], '/'));
      t := InsertSegments(t, parts);
    }
    assert paths[..|paths|] == paths;
  }

  // ---------------------------------------------------------------------------
  // The shape of a built tree
  // ---------------------------------------------------------------------------

  /** The root has no segments, is named '' at path '', and is not a file. */
  predicate RootOk(t: Tree) {
    [] in t && t[[]].name == "" && t[[]].path == "" && !t[[]].isFile
  }

  /** Every node but the root is listed, under its last segment, by the node one segment up. */
  ghost predicate Linked(t: Tree) {
    forall up, c :: up + [c] in t ==> up in t && c in t[up].children
  }

  /** Every listed child is a node. */
  predicate ChildrenPresent(t: Tree) {
    forall k, c :: k in t && c in t[k].children ==> k + [c] in t
  }

  /** No node lists a name twice, as a Map holds each key once. */
  predicate SiblingsDistinct(t: Tree) {
    forall k :: k in t ==> Seqs.Distinct(t[k].children)
  }

  /** Each node but the root is named by its last segment, and its path joins its segments with '/'. */
  predicate Labelled(t: Tree) {
    forall k :: k in t && k != [] ==> t[k].name == k[|k| - 1] && t[k].path == Join(k, '/')
  }

  /** No node is reached through an empty segment. */
  predicate SegmentsNonEmpty(t: Tree) {
    forall k :: k in t ==> "" !in k
  }

  ghost predicate Valid(t: Tree) {
    RootOk(t) && Linked(t) && ChildrenPresent(t) && SiblingsDistinct(t) &&
    Labelled(t) && SegmentsNonEmpty(t)
  }

  /** What one pass changes: the parent gains the child when it is new, and the child may become a file. */
  lemma DescendShape(t: Tree, key: seq<string>, part: string, path: string, last: bool)
    requires key in t
    ensures var r := Descend(t, key, part, path, last);
      var child := key + [part];
      (forall k :: k in t && k != key && k != child ==> r[k] == t[k]) &&
      (child in t ==>
        (r[key] == t[key] && r[child] == t[child].(isFile := t[child].isFile || last))) &&
      (child !in t ==>
        (r[key] == t[key].(children := t[key].children + [part]) && r[child] == Node(part, path, last, [])))
  {
  }

  lemma DescendRootOk(t: Tree, key: seq<string>, part: string, path: string, last: bool, r: Tree)
    requires RootOk(t) && key in t
    requires r == Descend(t, key, part, path, last)
    ensures RootOk(r)
  {
    DescendShape(t, key, part, path, last);
  }

  lemma DescendLinked(t: Tree, key: seq<string>, part: string, path: string, last: bool, r: Tree)
    requires Linked(t) && key in t
    requires r == Descend(t, key, part, path, last)
    ensures Linked(r)
  {
    DescendShape(t, key, part, path, last);
    var child := key + [part];
    forall up, c | up + [c] in r
      ensures up in r && c in r[up].children
    {
      if up + [c] == child {
        assert up == key && c == part by {
          assert (up + [c])[..|up|] == up && child[..|key|] == key;
        }
      } else {
        assert up in t && c in t[up].children;
        if up == key {
        } else if up != child {
          assert r[up] == t[up];
        }
      }
    }
  }

  lemma DescendChildrenPresent(t: Tree, key: seq<string>, part: string, path: string, last: bool, r: Tree)
    requires ChildrenPresent(t) && key in t
    requires r == Descend(t, key, part, path, last)
    ensures ChildrenPresent(r)
  {
    DescendShape(t, key, part, path, last);
    forall k, c | k in r && c in r[k].children
      ensures k + [c] in r
    {
      if k == key && key + [part] !in t {
        assert c in t[key].children || c == part;
      } else if k != key + [part] || key + [part] in t {
        assert k in t && r[k].children == t[k].children;
      }
    }
  }

  lemma DescendSiblingsDistinct(t: Tree, key: seq<string>, part: string, path: string, last: bool, r: Tree)
    requires ChildrenPresent(t) && SiblingsDistinct(t) && key in t
    requires r == Descend(t, key, part, path, last)
    ensures SiblingsDistinct(r)
  {
    DescendShape(t, key, part, path, last);
    var child := key + [part];
    forall k | k in r
      ensures Seqs.Distinct(r[k].children)
    {
      if k == key && child !in t {
        assert part !in t[key].children;
        var cs := t[key].children;
        assert forall i :: 0 <= i < |cs| ==> (cs + [part])[i] == cs[i] && cs[i] != part;
      } else if k != child || child in t {
        assert k in t && r[k].children == t[k].children;
      }
    }
  }

  lemma DescendLabelled(t: Tree, key: seq<string>, part: string, path: string, last: bool, r: Tree)
    requires Labelled(t) && key in t && path == Join(key + [part], '/')
    requires r == Descend(t, key, part, path, last)
    ensures Labelled(r)
  {
    DescendShape(t, key, part, path, last);
    forall k | k in r && k != []
      ensures r[k].name == k[|k| - 1] && r[k].path == Join(k, '/')
    {
      if k != key + [part] || key + [part] in t {
        assert k in t && r[k].name == t[k].name && r[k].path == t[k].path;
      }
    }
  }

  lemma DescendSegmentsNonEmpty(t: Tree, key: seq<string>, part: string, path: string, last: bool, r: Tree)
    requires SegmentsNonEmpty(t) && key in t && part != ""
    requires r == Descend(t, key, part, path, last)
    ensures SegmentsNonEmpty(r)
  {
    forall k | k in r
      ensures "" !in k
    {
      if k == key + [part] {
        Seqs.MemberSplit("", k, |key|);
        assert k[|key|..] == [part];
      }
    }
  }

  /** One pass keeps a tree well formed. */
  lemma DescendValid(t: Tree, key: seq<string>, part: string, path: string, last: bool, r: Tree)
    requires Valid(t) && key in t && part != "" && path == Join(key + [part], '/')
    requires r == Descend(t, key, part, path, last)
    ensures Valid(r)
  {
    DescendRootOk(t, key, part, path, last, r);
    DescendLinked(t, key, part, path, last, r);
    DescendChildrenPresent(t, key, part, path, last, r);
    DescendSiblingsDistinct(t, key, part, path, last, r);
    DescendLabelled(t, key, part, path, last, r);
    DescendSegmentsNonEmpty(t, key, part, path, last, r);
  }

  /** Walking the remaining segments keeps a tree well formed. */
  lemma {:induction false} InsertFromValid(t: Tree, key: seq<string>, rest: seq<string>)
    requires Valid(t) && key in t && "" !in rest
    ensures Valid(InsertFrom(t, key, rest))
    decreases |rest|
  {
    if rest != [] {
      var child := key + [rest[0]];
      var t1 := Descend(t, key, rest[0], Join(child, '/'), |rest| == 1);
      assert rest[0] in rest;
      DescendValid(t, key, rest[0], Join(child, '/'), |rest| == 1, t1);
      Seqs.MemberSplit("", rest, 1);
      InsertFromValid(t1, child, rest[1..]);
    }
  }

  /** The segments of a path are never empty. */
  lemma SegmentsNonEmptyPieces(p: string)
    ensures "" !in Segments(p)
  {
    NonEmptySpec(Split(p, '/'));
  }

  /** A built tree is well formed. */
  lemma {:induction false} BuildValid(paths: seq<string>)
    ensures Valid(Build(paths))
    decreases |paths|
  {
    if paths != [] {
      var init := paths[..|paths| - 1];
      var parts := Segments(paths[|paths| - 1]);
      BuildValid(init);
      SegmentsNonEmptyPieces(paths[|paths| - 1]);
      InsertFromValid(Build(init), [], parts);
    }
  }

  // ---------------------------------------------------------------------------
  // Which nodes a built tree has, and which of them are files
  // ---------------------------------------------------------------------------

  /** The node sequences below `key` that walking `rest` from `key` passes through. */
  function Walked(key: seq<string>, rest: seq<string>): set<seq<string>> {
    set j | 1 <= j <= |rest| :: key + rest[..j]
  }

  lemma DescendKeys(t: Tree, key: seq<string>, part: string, path: string, last: bool)
    requires key in t
    ensures Descend(t, key, part, path, last).Keys == t.Keys + {key + [part]}
  {
  }

  lemma WalkedStep(key: seq<string>, rest: seq<string>)
    requires rest != []
    ensures Walked(key, rest) == {key + [rest[0]]} + Walked(key + [rest[0]], rest[1..])
  {
    var child := key + [rest[0]];
    forall x | x in Walked(key, rest)
      ensures x in {child} + Walked(child, rest[1..])
    {
      var j :| 1 <= j <= |rest| && x == key + rest[..j];
      if j > 1 {
        assert x == child + rest[1..][..j - 1];
      } else {
        assert rest[..1] == [rest[0]];
      }
    }
    forall x | x in {child} + Walked(child, rest[1..])
      ensures x in Walked(key, rest)
    {
      if x == child {
        assert rest[..1] == [rest[0]];
        assert x == key + rest[..1];
      } else {
        var j :| 1 <= j <= |rest[1..]| && x == child + rest[1..][..j];
        assert x == key + rest[..j + 1];
      }
    }
  }

  /** Walking `rest` from `key` adds exactly the nodes along the walk. */
  lemma {:induction false} InsertFromKeys(t: Tree, key: seq<string>, rest: seq<string>)
    requires key in t
    ensures InsertFrom(t, key, rest).Keys == t.Keys + Walked(key, rest)
    decreases |rest|
  {
    if rest != [] {
      var child := key + [rest[0]];
      var t1 := Descend(t, key, rest[0], Join(child, '/'), |rest| == 1);
      DescendKeys(t, key, rest[0], Join(child, '/'), |rest| == 1);
      InsertFromKeys(t1, child, rest[1..]);
      WalkedStep(key, rest);
    }
  }

  /** A pass marks at most the child it moves to as a file, and unmarks nothing. */
  lemma DescendFiles(t: Tree, key: seq<string>, part: string, path: string, last: bool)
    requires key in t
    ensures var r := Descend(t, key, part, path, last);
      forall k :: k in r ==> (r[k].isFile <==> (k in t && t[k].isFile) || (last && k == key + [part]))
  {
    DescendShape(t, key, part, path, last);
  }

  /** Walking `rest` from `key` marks exactly the node at its end as a file. */
  lemma {:induction false} InsertFromFiles(t: Tree, key: seq<string>, rest: seq<string>)
    requires key in t
    ensures var r := InsertFrom(t, key, rest);
      forall k :: k in r ==> (r[k].isFile <==> (k in t && t[k].isFile) || (rest != [] && k == key + rest))
    decreases |rest|
  {
    if rest != [] {
      var child := key + [rest[0]];
      var t1 := Descend(t, key, rest[0], Join(child, '/'), |rest| == 1);
      DescendFiles(t, key, rest[0], Join(child, '/'), |rest| == 1);
      InsertFromFiles(t1, child, rest[1..]);
      assert child + rest[1..] == key + rest;
      if |rest| == 1 {
        assert child == key + rest;
      }
    }
  }

  /** The non-empty prefixes of a path's segments: the nodes a path needs. */
  function Prefixes(parts: seq<string>): set<seq<string>> {
    set j | 1 <= j <= |parts| :: parts[..j]
  }

  lemma WalkedFromRoot(parts: seq<string>)
    ensures Walked([], parts) == Prefixes(parts)
  {
    assert forall j :: 1 <= j <= |parts| ==> [] + parts[..j] == parts[..j];
  }

  /** Some path of `paths` has `k` among the non-empty prefixes of its segments. */
  predicate OnSomePath(paths: seq<string>, k: seq<string>) {
    exists i :: 0 <= i < |paths| && k in Prefixes(Segments(paths[i]))
  }

  /** Some path of `paths` has exactly the segments `k`. */
  predicate EndOfSomePath(paths: seq<string>, k: seq<string>) {
    exists i :: 0 <= i < |paths| && Segments(paths[i]) != [] && k == Segments(paths[i])
  }

  /** One more path inserts its segments into the tree built from the others. */
  lemma BuildSnoc(paths: seq<string>, init: seq<string>, parts: seq<string>)
    requires paths != [] && init == paths[..|paths| - 1] && parts == Segments(paths[|paths| - 1])
    ensures Build(paths) == InsertFrom(Build(init), [], parts)
  {
  }

  /** The nodes after inserting `parts` from the root. */
  lemma NodesAfterInsert(t: Tree, parts: seq<string>, r: Tree, k: seq<string>)
    requires [] in t && r == InsertFrom(t, [], parts)
    ensures k in r <==> k in t || k in Prefixes(parts)
  {
    InsertFromKeys(t, [], parts);
    WalkedFromRoot(parts);
  }

  /** The files after inserting `parts` from the root. */
  lemma FilesAfterInsert(t: Tree, parts: seq<string>, r: Tree, k: seq<string>)
    requires [] in t && r == InsertFrom(t, [], parts) && k in r
    ensures r[k].isFile <==> (k in t && t[k].isFile) || (parts != [] && k == parts)
  {
    InsertFromFiles(t, [], parts);
    assert [] + parts == parts;
  }

  /**
   * `buildTree` shares one node per distinct prefix: a built tree has the
   * root and a node for each non-empty prefix of each path's segments, and
   * nothing else; a path without segments adds nothing.
   */
  lemma {:induction false} BuildNodes(paths: seq<string>, k: seq<string>)
    ensures k in Build(paths) <==> k == [] || OnSomePath(paths, k)
    decreases |paths|
  {
    if paths != [] {
      var init := paths[..|paths| - 1];
      var parts := Segments(paths[|paths| - 1]);
      BuildNodes(init, k);
      BuildSnoc(paths, init, parts);
      NodesAfterInsert(Build(init), parts, Build(paths), k);
      OnSomePathSnoc(paths, k);
    }
  }

  /** The bookkeeping of one step of `BuildNodes`, apart from any tree's construction. */
  lemma OnSomePathSnoc(paths: seq<string>, k: seq<string>)
    requires paths != []
    ensures OnSomePath(paths, k) <==>
      OnSomePath(paths[..|paths| - 1], k) || k in Prefixes(Segments(paths[|paths| - 1]))
  {
    var init := paths[..|paths| - 1];
    if OnSomePath(init, k) {
      var i :| 0 <= i < |init| && k in Prefixes(Segments(init[i]));
      assert paths[i] == init[i];
    }
    if OnSomePath(paths, k) {
      var i :| 0 <= i < |paths| && k in Prefixes(Segments(paths[i]));
      if i < |init| {
        assert paths[i] == init[i];
      }
    }
  }

  /**
   * The nodes marked `isFile` are exactly the full segment sequences of the
   * paths that have at least one segment.
   */
  /** The bookkeeping of one step of `BuildFiles`, apart from any tree's construction. */
  lemma EndOfSomePathSnoc(paths: seq<string>, k: seq<string>)
    requires paths != []
    ensures var parts := Segments(paths[|paths| - 1]);
      EndOfSomePath(paths, k) <==>
        EndOfSomePath(paths[..|paths| - 1], k) || (parts != [] && k == parts)
  {
    var init := paths[..|paths| - 1];
    if EndOfSomePath(init, k) {
      var i :| 0 <= i < |init| && Segments(init[i]) != [] && k == Segments(init[i]);
      assert paths[i] == init[i];
    }
    if EndOfSomePath(paths, k) {
      var i :| 0 <= i < |paths| && Segments(paths[i]) != [] && k == Segments(paths[i]);
      if i < |init| {
        assert paths[i] == init[i];
      }
    }
  }

  /** A path's full segment sequence is one of its prefixes. */
  lemma EndIsOnPath(paths: seq<string>, k: seq<string>)
    requires EndOfSomePath(paths, k)
    ensures OnSomePath(paths, k)
  {
    var i :| 0 <= i < |paths| && Segments(paths[i]) != [] && k == Segments(paths[i]);
    assert k[..|k|] == k;
  }

  lemma {:induction false} BuildFiles(paths: seq<string>, k: seq<string>)
    requires k in Build(paths)
    ensures Build(paths)[k].isFile <==> EndOfSomePath(paths, k)
    decreases |paths|
  {
    if paths != [] {
      var init := paths[..|paths| - 1];
      var parts := Segments(paths[|paths| - 1]);
      var t0 := Build(init);
      BuildSnoc(paths, init, parts);
      FilesAfterInsert(t0, parts, Build(paths), k);
      EndOfSomePathSnoc(paths, k);
      if k in t0 {
        BuildFiles(init, k);
      } else if EndOfSomePath(init, k) {
        EndIsOnPath(init, k);
        BuildNodes(init, k);
      }
    }
  }

  // ---------------------------------------------------------------------------
  // NodeList: file or folder
  // ---------------------------------------------------------------------------

  /** `NodeList`'s test: a node is drawn as a file only when it is marked and has no children. */
  predicate ShownAsFile(n: Node) {
    n.isFile && |n.children| == 0
  }

  /**
   * A node is drawn as a file exactly when some path ends at it and no path
   * continues below it: a path that is also a prefix of another path is
   * drawn as a folder.
   */
  lemma BuildShownAsFile(paths: seq<string>, k: seq<string>)
    requires k in Build(paths)
    ensures ShownAsFile(Build(paths)[k]) <==>
      EndOfSomePath(paths, k) && forall c :: !OnSomePath(paths, k + [c])
  {
    var t := Build(paths);
    BuildValid(paths);
    BuildFiles(paths, k);
    if |t[k].children| > 0 {
      var c := t[k].children[0];
      assert k + [c] in t;
      BuildNodes(paths, k + [c]);
    }
    forall c | OnSomePath(paths, k + [c])
      ensures |t[k].children| > 0
    {
      BuildNodes(paths, k + [c]);
      assert c in t[k].children;
    }
  }

  // ---------------------------------------------------------------------------
  // collectFolderPaths
  // ---------------------------------------------------------------------------

  /** The nodes at or below `key`. */
  ghost function Below(t: Tree, key: seq<string>): set<seq<string>> {
    set k | k in t && |key| <= |k| && k[..|key|] == key
  }

  /** Moving to a child leaves fewer nodes below: the measure of the walk. */
  lemma BelowShrinks(t: Tree, key: seq<string>, c: string)
    requires key in t
    ensures |Below(t, key + [c])| < |Below(t, key)|
  {
    var child := key + [c];
    forall k | k in Below(t, child)
      ensures k in Below(t, key)
    {
      assert k[..|key|] == k[..|child|][..|key|];
    }
    assert key[..|key|] == key;
    assert key in Below(t, key) && key !in Below(t, child);
    var rest := Below(t, key) - Below(t, child);
    assert Below(t, key) == Below(t, child) + rest;
    assert key in rest;
  }

  /**
   * The paths `collectFolderPaths` pushes for the node at `key`, in the
   * order it pushes them: a node with children pushes its own path unless
   * it is empty, then those of its children in insertion order.
   */
  function Folders(t: Tree, key: seq<string>): seq<string>
    requires key in t && ChildrenPresent(t)
    decreases |Below(t, key)|, 1
  {
    var n := t[key];
    if |n.children| == 0 then []
    else (if n.path != "" then [n.path] else []) + FoldersOf(t, key, n.children)
  }

  /** The paths pushed for the children `cs` of the node at `key`, one after another. */
  function FoldersOf(t: Tree, key: seq<string>, cs: seq<string>): seq<string>
    requires key in t && ChildrenPresent(t)
    requires forall c :: c in cs ==> c in t[key].children
    decreases |Below(t, key)|, 0, |cs|
  {
    if cs == [] then []
    else
      BelowShrinks(t, key, cs[0]);
      Folders(t, key + [cs[0]]) + FoldersOf(t, key, cs[1..])
  }

  /** A node with children contributes its own path, if any, then its children's folders. */
  lemma FoldersUnfold(t: Tree, key: seq<string>)
    requires key in t && ChildrenPresent(t) && |t[key].children| > 0
    ensures var n := t[key];
      Folders(t, key) == (if n.path != "" then [n.path] else []) + FoldersOf(t, key, n.children[0..])
  {
    assert t[key].children[0..] == t[key].children;
  }

  /** The folders of the children from the `i`-th on: the `i`-th child's, then the rest's. */
  lemma FoldersOfStep(t: Tree, key: seq<string>, i: nat)
    requires key in t && ChildrenPresent(t) && i < |t[key].children|
    ensures var cs := t[key].children;
      FoldersOf(t, key, cs[i..]) == Folders(t, key + [cs[i]]) + FoldersOf(t, key, cs[i + 1..])
  {
    var cs := t[key].children;
    assert cs[i..][1..] == cs[i + 1..];
  }

  /** The accumulator bookkeeping of one pass of the loop over the children. */
  lemma AccumulateStep(before: seq<string>, out: seq<string>, mine: seq<string>,
                       later: seq<string>, pending: seq<string>, goal: seq<string>)
    requires out == before + mine && pending == mine + later && before + pending == goal
    ensures out + later == goal
  {
  }

  /**
   * `collectFolderPaths(node, acc)`: appends to `acc` the paths of the
   * folders at and below the node at `key`, in pre-order.
   */
  method CollectFolderPaths(t: Tree, key: seq<string>, acc: seq<string>) returns (out: seq<string>)
    requires key in t && ChildrenPresent(t)
    ensures out == acc + Folders(t, key)
    decreases |Below(t, key)|
  {
    out := acc;
    var n := t[key];
    if |n.children| > 0 {
      FoldersUnfold(t, key);
      if n.path != "" {
        out := out + [n.path];
      }
      ghost var own := if n.path != "" then [n.path] else [];
      assert out == acc + own;
      AccumulateStep(acc, out, own, FoldersOf(t, key, n.children[0..]), Folders(t, key), acc + Folders(t, key));
      var i := 0;
      while i < |n.children|
        invariant 0 <= i <= |n.children|
        invariant out + FoldersOf(t, key, n.children[i..]) == acc + Folders(t, key)
      {
        var c := n.children[i];
        ghost var before := out;
        FoldersOfStep(t, key, i);
        BelowShrinks(t, key, c);
        out := CollectFolderPaths(t, key + [c], out);
        AccumulateStep(before, out, Folders(t, key + [c]), FoldersOf(t, key, n.children[i + 1..]),
          FoldersOf(t, key, n.children[i..]), acc + Folders(t, key));
        i := i + 1;
      }
    }
  }

  /** A node `collectFolderPaths` pushes: one with children and a non-empty path. */
  predicate IsFolder(t: Tree, k: seq<string>) {
    k in t && |t[k].children| > 0 && t[k].path != ""
  }

  /** What is below a child is below its parent. */
  lemma BelowChild(t: Tree, key: seq<string>, c: string, k: seq<string>)
    requires k in Below(t, key + [c])
    ensures k in Below(t, key)
  {
    assert k[..|key|] == k[..|key| + 1][..|key|];
  }

  /** Every collected path is that of a folder at or below `key`. */
  lemma {:induction false} FoldersSound(t: Tree, key: seq<string>, x: string)
    requires key in t && ChildrenPresent(t) && x in Folders(t, key)
    ensures exists k :: k in Below(t, key) && IsFolder(t, k) && t[k].path == x
    decreases |Below(t, key)|, 1
  {
    var n := t[key];
    if n.path != "" && x == n.path {
      assert key[..|key|] == key;
      assert key in Below(t, key);
    } else {
      FoldersOfSound(t, key, n.children, x);
    }
  }

  /** Every path collected for some children is that of a folder strictly below `key`. */
  lemma {:induction false} FoldersOfSound(t: Tree, key: seq<string>, cs: seq<string>, x: string)
    requires key in t && ChildrenPresent(t)
    requires forall c :: c in cs ==> c in t[key].children
    requires x in FoldersOf(t, key, cs)
    ensures exists k :: k in Below(t, key) && IsFolder(t, k) && t[k].path == x
    decreases |Below(t, key)|, 0, |cs|
  {
    var child := key + [cs[0]];
    BelowShrinks(t, key, cs[0]);
    if x in Folders(t, child) {
      FoldersSound(t, child, x);
      var k :| k in Below(t, child) && IsFolder(t, k) && t[k].path == x;
      BelowChild(t, key, cs[0], k);
    } else {
      FoldersOfSound(t, key, cs[1..], x);
    }
  }

  /** In a linked tree every prefix of a node is a node. */
  lemma {:induction false} LinkedPrefix(t: Tree, k: seq<string>, j: nat)
    requires Linked(t) && k in t && j <= |k|
    ensures k[..j] in t
    decreases |k| - j
  {
    if j < |k| {
      LinkedPrefix(t, k, j + 1);
      assert k[..j + 1] == k[..j] + [k[j]];
    } else {
      assert k[..j] == k;
    }
  }

  /** The paths collected for some children include those collected for each of them. */
  lemma {:induction false} FoldersOfContains(t: Tree, key: seq<string>, cs: seq<string>, c: string, x: string)
    requires key in t && ChildrenPresent(t)
    requires forall d :: d in cs ==> d in t[key].children
    requires c in cs && key + [c] in t && x in Folders(t, key + [c])
    ensures x in FoldersOf(t, key, cs)
    decreases |cs|
  {
    if cs[0] != c {
      FoldersOfContains(t, key, cs[1..], c, x);
    }
  }

  /** Every folder at or below `key` has its path collected. */
  lemma {:induction false} FoldersComplete(t: Tree, key: seq<string>, k: seq<string>)
    requires Linked(t) && ChildrenPresent(t) && key in t
    requires k in Below(t, key) && IsFolder(t, k)
    ensures t[k].path in Folders(t, key)
    decreases |k| - |key|
  {
    if |k| == |key| {
      assert k == k[..|key|];
    } else {
      var c := k[|key|];
      var child := key + [c];
      LinkedPrefix(t, k, |key| + 1);
      assert k[..|key| + 1] == child;
      assert child[..|child|] == child;
      assert k[..|child|] == child;
      assert k in Below(t, child);
      FoldersComplete(t, child, k);
      FoldersOfContains(t, key, t[key].children, c, t[k].path);
    }
  }

  /** A non-root node of a built tree has a non-empty path; the root's is empty. */
  lemma PathEmptyOnlyAtRoot(t: Tree, k: seq<string>)
    requires Valid(t) && k in t
    ensures t[k].path == "" <==> k == []
  {
    if k != [] {
      assert k[0] in k;
      JoinLength(k, '/');
    }
  }

  /**
   * Expand-all opens exactly the folders: the paths collected from the root
   * of a built tree are those of the non-root nodes that have children.
   */
  lemma CollectedFromRoot(t: Tree, x: string)
    requires Valid(t)
    ensures x in Folders(t, []) <==>
      exists k :: k in t && k != [] && |t[k].children| > 0 && t[k].path == x
  {
    if x in Folders(t, []) {
      FoldersSound(t, [], x);
      var k :| k in Below(t, []) && IsFolder(t, k) && t[k].path == x;
      PathEmptyOnlyAtRoot(t, k);
    }
    if exists k :: k in t && k != [] && |t[k].children| > 0 && t[k].path == x {
      var k :| k in t && k != [] && |t[k].children| > 0 && t[k].path == x;
      PathEmptyOnlyAtRoot(t, k);
      assert k[..0] == [];
      FoldersComplete(t, [], k);
    }
  }

  // ---------------------------------------------------------------------------
  // The open folders: toggle and the expand-all / collapse-all signals
  // ---------------------------------------------------------------------------

  /** The set `toggle` hands on: the path's membership flips and every other path keeps its own. */
  function Toggled(expanded: set<string>, path: string): (next: set<string>)
    ensures path in next <==> path !in expanded
    ensures forall q :: q != path ==> (q in next <==> q in expanded)
  {
    if path in expanded then expanded - {path} else expanded + {path}
  }

  /** Toggling the same folder twice restores the set. */
  lemma ToggleTwice(expanded: set<string>, path: string)
    ensures Toggled(Toggled(expanded, path), path) == expanded
  {
  }

  /** The set of paths a list holds: `new Set(list)`. */
  function SetOf(list: seq<string>): (r: set<string>)
    ensures forall x :: x in r <==> x in list
  {
    set x | x in list
  }

  lemma PrependEmpty(out: seq<string>, list: seq<string>)
    requires out == [] + list
    ensures out == list
  {
  }

  /**
   * The state behind the open folders. The component keeps its own set
   * (`expandedState`) but shows the set a parent passes in
   * (`expandedPaths`) when there is one; a new set goes to the parent's
   * `onExpandedChange` when it listens, and otherwise replaces the
   * component's own set. `reported` records the sets handed to the parent.
   */
  class Expansion {
    var expandedState: set<string>
    const expandedPaths: Option<set<string>>
    const listens: bool
    var reported: seq<set<string>>

    /** A fresh component starts with no open folder of its own. */
    constructor (expandedPaths: Option<set<string>>, listens: bool)
      ensures this.expandedPaths == expandedPaths && this.listens == listens
      ensures expandedState == {} && reported == []
    {
      this.expandedPaths := expandedPaths;
      this.listens := listens;
      expandedState := {};
      reported := [];
    }

    /** `expandedPaths ?? expandedState`: the set the tree is drawn with. */
    function Expanded(): set<string>
      reads this
    {
      if expandedPaths.Some? then expandedPaths.value else expandedState
    }

    /** `setExpanded(next)`: to the listening parent, or else into the component's own set. */
    method SetExpanded(next: set<string>)
      modifies this
      ensures listens ==> reported == old(reported) + [next] && expandedState == old(expandedState)
      ensures !listens ==> expandedState == next && reported == old(reported)
    {
      if listens {
        reported := reported + [next];
      } else {
        expandedState := next;
      }
    }

    /** `toggle(path)`: a copy of the shown set with the path's membership flipped. */
    method Toggle(path: string)
      modifies this
      ensures listens ==>
        reported == old(reported) + [Toggled(old(Expanded()), path)] && expandedState == old(expandedState)
      ensures !listens ==> expandedState == Toggled(old(Expanded()), path) && reported == old(reported)
    {
      var next := Expanded();
      if path in next {
        next := next - {path};
      } else {
        next := next + {path};
      }
      SetExpanded(next);
    }

    /**
     * The expand-all effect: a signal that is a number above 0 opens exactly
     * the folders of `root`; anything else changes nothing.
     */
    method OnExpandAllSignal(signal: Option<int>, root: Tree)
      requires [] in root && ChildrenPresent(root)
      modifies this
      ensures signal.Some? && signal.value > 0 && listens ==>
        reported == old(reported) + [SetOf(Folders(root, []))] && expandedState == old(expandedState)
      ensures signal.Some? && signal.value > 0 && !listens ==>
        expandedState == SetOf(Folders(root, [])) && reported == old(reported)
      ensures !(signal.Some? && signal.value > 0) ==>
        expandedState == old(expandedState) && reported == old(reported)
    {
      if signal.Some? && signal.value > 0 {
        var folders := CollectFolderPaths(root, [], []);
        PrependEmpty(folders, Folders(root, []));
        SetExpanded(SetOf(folders));
      }
    }

    /**
     * The collapse-all effect: a signal that is a number above 0 closes
     * every folder; anything else changes nothing.
     */
    method OnCollapseAllSignal(signal: Option<int>)
      modifies this
      ensures signal.Some? && signal.value > 0 && listens ==>
        reported == old(reported) + [{}] && expandedState == old(expandedState)
      ensures signal.Some? && signal.value > 0 && !listens ==>
        expandedState == {} && reported == old(reported)
      ensures !(signal.Some? && signal.value > 0) ==>
        expandedState == old(expandedState) && reported == old(reported)
    {
      if signal.Some? && signal.value > 0 {
        SetExpanded({});
      }
    }
  }
}
