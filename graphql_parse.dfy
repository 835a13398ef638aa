/**
 * The text parsers and the `stage` argument builder of the GraphQL route
 * (src/app/api/graphql/route.js): `parseLog`, `parsePorcelainZ` and the
 * validation in `stage`.
 */
module GraphqlParse {
  import opened Wrappers
  import opened Strings
  import Sorting
  import Seqs

  /** The field separator of git's `-z` output. */
  const NUL: char := '\0'

  // ---------------------------------------------------------------------------
  // parseLog
  // ---------------------------------------------------------------------------

  /** A commit of the history endpoint, as `parseLog` builds it. */
  datatype LogCommit = LogCommit(
    id: string,
    short: string,
    parents: seq<string>,
    message: string,
    authorName: string,
    authorEmail: string,
    authorDate: string)

  /** `parentsStr.trim() ? parentsStr.trim().split(' ') : []` */
  function ParentList(field: string): seq<string> {
    var t := Trim(field);
    if |t| == 0 then [] else Split(t, ' ')
  }

  /** The commit read from one group of seven fields. */
  function Group(g: seq<string>): LogCommit
    requires |g| >= 7
  {
    var id := g[0];
    LogCommit(id, Or(g[1], Take(id, 7)), ParentList(Or(g[2], "")), Or(g[3], ""),
              Or(g[4], ""), Or(g[5], ""), Or(g[6], ""))
  }

  /**
   * Whole groups of seven fields, in order: commit `k` is read from fields
   * `7k` to `7k + 6`, and a trailing partial group is ignored.
   */
  function Groups(parts: seq<string>): (cs: seq<LogCommit>)
    ensures 7 * |cs| <= |parts| < 7 * |cs| + 7
  {
    var n := |parts| / 7;
    seq(n, k requires 0 <= k < n => Group(parts[7 * k .. 7 * k + 7]))
  }

  /** The body of the stride-7 loop of `parseLog`: the commit read from `parts[i..i + 7]`. */
  method ReadCommit(parts: seq<string>, i: nat) returns (c: LogCommit)
    requires i + 7 <= |parts|
    ensures c == Group(parts[i .. i + 7])
  {
    var id := parts[i];
    var short := Or(parts[i + 1], Take(id, 7));
    var parentsStr := Or(parts[i + 2], "");
    var message := Or(parts[i + 3], "");
    var authorName := Or(parts[i + 4], "");
    var authorEmail := Or(parts[i + 5], "");
    var authorDate := Or(parts[i + 6], "");
    var trimmed := Trim(parentsStr);
    var parents := if trimmed != "" then Split(trimmed, ' ') else [];
    c := LogCommit(id, short, parents, message, authorName, authorEmail, authorDate);
    ghost var g := parts[i .. i + 7];
    assert g[0] == id && g[1] == parts[i + 1] && g[2] == parts[i + 2] && g[3] == parts[i + 3];
    assert g[4] == parts[i + 4] && g[5] == parts[i + 5] && g[6] == parts[i + 6];
  }

  /**
   * `parseLog`: splits on NUL, drops empty fields, then reads groups of seven
   * with a stride-7 loop.
   */
  method ParseLog(s: string) returns (commits: seq<LogCommit>)
    ensures commits == Groups(NonEmpty(Split(s, NUL)))
  {
    var parts := NonEmpty(Split(s, NUL));
    commits := ReadGroups(parts);
  }

  /** The stride-7 loop of `parseLog`: reads whole groups of seven fields. */
  method ReadGroups(parts: seq<string>) returns (commits: seq<LogCommit>)
    ensures commits == Groups(parts)
  {
    commits := [];
    var i := 0;
    while i + 6 < |parts|
      invariant i == 7 * |commits| <= |parts|
      invariant forall k :: 0 <= k < |commits| ==> commits[k] == Group(parts[7 * k .. 7 * k + 7])
      decreases |parts| - i
    {
      var c := ReadCommit(parts, i);
      commits := commits + [c];
      i := i + 7;
    }
  }

  /**
   * The corrected reading: the same groups of seven, over every NUL-separated
   * field, empty ones included.
   */
  function ParseLogFields(s: string): seq<LogCommit>
  {
    Groups(Split(s, NUL))
  }

  /** The seven fields `%H %h %P %s %an %ae %aI` that git prints for a commit. */
  function CommitFields(c: LogCommit): seq<string> {
    [c.id, c.short, Join(c.parents, ' '), c.message, c.authorName, c.authorEmail, c.authorDate]
  }

  function LogFields(cs: seq<LogCommit>): (fs: seq<string>)
    ensures |fs| == 7 * |cs|
  {
    if |cs| == 0 then [] else CommitFields(cs[0]) + LogFields(cs[1..])
  }

  /** The output of `git log -z --pretty=format:...`: the fields NUL-separated. */
  function FormatLog(cs: seq<LogCommit>): string {
    Join(LogFields(cs), NUL)
  }

  /** A commit git can print and the reader can read back. */
  predicate Printable(c: LogCommit) {
    c.short != "" &&
    (forall f :: f in CommitFields(c) ==> NUL !in f) &&
    forall p :: p in c.parents ==> p != "" && forall k :: 0 <= k < |p| ==> !IsJsSpace(p[k])
  }

  lemma {:induction false} JoinEnds(ps: seq<string>, sep: char)
    requires |ps| >= 1 && ps[0] != "" && ps[|ps| - 1] != ""
    ensures Join(ps, sep) != ""
    ensures Join(ps, sep)[0] == ps[0][0]
    ensures Join(ps, sep)[|Join(ps, sep)| - 1] == ps[|ps| - 1][|ps[|ps| - 1]| - 1]
  {
    if |ps| > 1 {
      assert ps[1..][|ps[1..]| - 1] == ps[|ps| - 1];
      if ps[1..][0] != "" {
        JoinEnds(ps[1..], sep);
      } else {
        assert |ps| > 2 ==> ps[1..][0] == ps[1];
        JoinEndsTail(ps[1..], sep);
      }
    }
  }

  lemma {:induction false} JoinEndsTail(ps: seq<string>, sep: char)
    requires |ps| >= 1 && ps[|ps| - 1] != ""
    ensures Join(ps, sep) != ""
    ensures Join(ps, sep)[|Join(ps, sep)| - 1] == ps[|ps| - 1][|ps[|ps| - 1]| - 1]
  {
    if |ps| > 1 {
      assert ps[1..][|ps[1..]| - 1] == ps[|ps| - 1];
      JoinEndsTail(ps[1..], sep);
    }
  }

  /** The parent field reads back as the parent list. */
  lemma ParentListJoin(ps: seq<string>)
    requires forall p :: p in ps ==> p != "" && forall k :: 0 <= k < |p| ==> !IsJsSpace(p[k])
    ensures ParentList(Join(ps, ' ')) == ps
  {
    if ps != [] {
      JoinEnds(ps, ' ');
      TrimUntouched(Join(ps, ' '));
      forall k | 0 <= k < |ps| ensures ' ' !in ps[k] {
        assert ps[k] in ps;
        assert IsJsSpace(' ');
      }
      SplitJoin(ps, ' ');
    }
  }

  lemma GroupOfCommitFields(c: LogCommit)
    requires Printable(c)
    ensures Group(CommitFields(c)) == c
  {
    ParentListJoin(c.parents);
  }

  /** The fields of commit `k` sit at positions `7k` to `7k + 6` of the printed fields. */
  lemma {:induction false} LogFieldsAt(cs: seq<LogCommit>, k: nat)
    requires k < |cs|
    ensures LogFields(cs)[7 * k .. 7 * k + 7] == CommitFields(cs[k])
  {
    var fs := LogFields(cs);
    Seqs.AppendParts(CommitFields(cs[0]), LogFields(cs[1..]));
    if k > 0 {
      var j := 7 * (k - 1);
      LogFieldsAt(cs[1..], k - 1);
      Seqs.SliceOfDrop(fs, 7, j, j + 7);
      assert 7 + j == 7 * k;
    }
  }

  lemma GroupsOfLogFields(cs: seq<LogCommit>)
    requires forall c :: c in cs ==> Printable(c)
    ensures Groups(LogFields(cs)) == cs
  {
    var gs := Groups(LogFields(cs));
    assert |gs| == |cs|;
    forall k | 0 <= k < |cs| ensures gs[k] == cs[k] {
      assert cs[k] in cs;
      GroupOfLogFieldsAt(cs, k);
    }
  }

  lemma GroupOfLogFieldsAt(cs: seq<LogCommit>, k: nat)
    requires k < |cs| && Printable(cs[k])
    ensures k < |Groups(LogFields(cs))| && Groups(LogFields(cs))[k] == cs[k]
  {
    var fs := LogFields(cs);
    LogFieldsAt(cs, k);
    var g := fs[7 * k .. 7 * k + 7];
    assert Groups(fs)[k] == Group(g);
    GroupOfCommitFields(cs[k]);
    assert Group(g) == cs[k];
  }

  lemma {:induction false} LogFieldsNoNul(cs: seq<LogCommit>)
    requires forall c :: c in cs ==> Printable(c)
    ensures forall k :: 0 <= k < |LogFields(cs)| ==> NUL !in LogFields(cs)[k]
  {
    if |cs| > 0 {
      LogFieldsNoNul(cs[1..]);
      var fs := LogFields(cs);
      assert cs[0] in cs;
      forall k | 0 <= k < |fs| ensures NUL !in fs[k] {
        if k < 7 {
          assert fs[k] == CommitFields(cs[0])[k];
          assert fs[k] in CommitFields(cs[0]);
        } else {
          assert fs[k] == LogFields(cs[1..])[k - 7];
        }
      }
    }
  }

  /** The split of a printed log is its fields. */
  lemma SplitFormatLog(cs: seq<LogCommit>)
    requires forall c :: c in cs ==> Printable(c)
    ensures cs != [] ==> Split(FormatLog(cs), NUL) == LogFields(cs)
    ensures cs == [] ==> Split(FormatLog(cs), NUL) == [""]
  {
    if cs != [] {
      LogFieldsNoNul(cs);
      SplitJoin(LogFields(cs), NUL);
    } else {
      assert IndexOfChar("", NUL) == -1;
    }
  }

  /** The corrected reader inverts git's output for every printable history. */
  lemma ParseLogFieldsRoundTrip(cs: seq<LogCommit>)
    requires forall c :: c in cs ==> Printable(c)
    ensures ParseLogFields(FormatLog(cs)) == cs
  {
    SplitFormatLog(cs);
    GroupsOfLogFields(cs);
  }

  /**
   * As written, the reader inverts git's output only when no field is empty:
   * every commit has a parent and a non-empty subject.
   */
  lemma ParseLogRoundTripNoEmptyField(cs: seq<LogCommit>)
    requires forall c :: c in cs ==> Printable(c) && c.id != "" && c.parents != [] && c.message != "" &&
                                     c.authorName != "" && c.authorEmail != "" && c.authorDate != ""
    ensures Groups(NonEmpty(Split(FormatLog(cs), NUL))) == cs
  {
    SplitFormatLog(cs);
    GroupsOfLogFields(cs);
    if cs != [] {
      NonEmptyLogFields(cs);
      NonEmptyOfNonEmpty(LogFields(cs));
    }
  }

  lemma {:induction false} NonEmptyLogFields(cs: seq<LogCommit>)
    requires forall c :: c in cs ==> Printable(c) && c.id != "" && c.parents != [] && c.message != "" &&
                                     c.authorName != "" && c.authorEmail != "" && c.authorDate != ""
    ensures forall k :: 0 <= k < |LogFields(cs)| ==> LogFields(cs)[k] != ""
  {
    if |cs| > 0 {
      NonEmptyLogFields(cs[1..]);
      assert cs[0] in cs;
      NonEmptyCommitFields(cs[0]);
      AllNonEmptyConcat(CommitFields(cs[0]), LogFields(cs[1..]));
    }
  }

  lemma NonEmptyCommitFields(c: LogCommit)
    requires Printable(c) && c.id != "" && c.parents != [] && c.message != "" &&
             c.authorName != "" && c.authorEmail != "" && c.authorDate != ""
    ensures forall k :: 0 <= k < 7 ==> CommitFields(c)[k] != ""
  {
    JoinEnds(c.parents, ' ') by {
      assert c.parents[0] in c.parents;
      assert c.parents[|c.parents| - 1] in c.parents;
    }
  }

  lemma AllNonEmptyConcat(a: seq<string>, b: seq<string>)
    requires forall k :: 0 <= k < |a| ==> a[k] != ""
    requires forall k :: 0 <= k < |b| ==> b[k] != ""
    ensures forall k :: 0 <= k < |a + b| ==> (a + b)[k] != ""
  {
  }

  /**
   * As written, a root commit is lost: its empty parent field is dropped
   * before grouping, six fields remain, and no group is read; the corrected
   * reader reads it back.
   */
  lemma ParseLogDropsRootCommit(root: LogCommit)
    requires Printable(root) && root.parents == []
    ensures Groups(NonEmpty(Split(FormatLog([root]), NUL))) == []
    ensures ParseLogFields(FormatLog([root])) == [root]
  {
    assert forall c :: c in [root] ==> Printable(c);
    ParseLogFieldsRoundTrip([root]);
    SplitFormatLog([root]);
    LogFieldsOne(root);
    var fs := CommitFields(root);
    assert Split(FormatLog([root]), NUL) == fs;
    assert fs[2] == "";
    NonEmptyDrops(fs);
    var kept := NonEmpty(fs);
    assert |kept| < 7;
    assert |Groups(kept)| == 0;
  }

  lemma LogFieldsOne(c: LogCommit)
    ensures LogFields([c]) == CommitFields(c)
  {
    assert LogFields([c][1..]) == [];
  }

  // ---------------------------------------------------------------------------
  // parsePorcelainZ
  // ---------------------------------------------------------------------------

  /** One status entry as read: its path and whether it counts as staged and/or unstaged. */
  datatype Change = Change(path: string, staged: bool, unstaged: bool)

  /** `s` with one trailing '/' removed. */
  function StripSlash(s: string): (r: string)
    ensures EndsWith(s, "/") ==> r == s[..|s| - 1]
    ensures !EndsWith(s, "/") ==> r == s
  {
    if |s| > 0 && s[|s| - 1] == '/' then s[..|s| - 1] else s
  }

  /** `entry.slice(3)` with one trailing '/' removed. */
  function EntryPath(entry: string): string {
    StripSlash(if |entry| >= 3 then entry[3..] else "")
  }

  /** X is neither ' ' nor '?'. */
  predicate StagedCode(entry: string)
    requires entry != ""
  {
    entry[0] != ' ' && entry[0] != '?'
  }

  /** The code `entry.slice(0, 2)` is `??`, or Y is present and not ' '. */
  predicate UnstagedCode(entry: string)
    requires entry != ""
  {
    |entry| >= 2 && ((entry[0] == '?' && entry[1] == '?') || entry[1] != ' ')
  }

  predicate RenameOrCopy(entry: string)
    requires entry != ""
  {
    entry[0] == 'R' || entry[0] == 'C'
  }

  /**
   * The entries of the NUL-separated fields, in order: empty fields are
   * skipped; a rename or copy consumes the next field, which replaces the
   * path when it is not empty.
   */
  function Scan(parts: seq<string>): seq<Change>
    decreases |parts|
  {
    if |parts| == 0 then []
    else if |parts[0]| == 0 then Scan(parts[1..])
    else
      var e := parts[0];
      if RenameOrCopy(e) && |parts| >= 2 then
        var path := if |parts[1]| > 0 then parts[1] else EntryPath(e);
        [Change(path, StagedCode(e), UnstagedCode(e))] + Scan(parts[2..])
      else
        [Change(EntryPath(e), StagedCode(e), UnstagedCode(e))] + Scan(parts[1..])
  }

  function StagedPaths(cs: seq<Change>): set<string> {
    set c | c in cs && c.staged :: c.path
  }

  function UnstagedPaths(cs: seq<Change>): set<string> {
    set c | c in cs && c.unstaged :: c.path
  }

  /** Strictly increasing in code-unit order: sorted and duplicate-free. */
  predicate StrictlySorted(s: seq<string>) {
    forall i, j :: 0 <= i < j < |s| ==> Sorting.StrLeq(s[i], s[j]) && s[i] != s[j]
  }

  /** `set.add(x)` on a set kept in insertion order. */
  function AddTo(s: seq<string>, x: string): (r: seq<string>)
    ensures Seqs.Distinct(s) ==> Seqs.Distinct(r)
    ensures forall y :: y in r <==> y in s || y == x
  {
    if x in s then s else s + [x]
  }

  /**
   * One entry of `parsePorcelainZ`, read at `parts[i]`: the status code, the
   * path, and for a rename or copy the next field, which replaces the path
   * when it is not empty. Returns the entry and where reading resumes.
   */
  method ReadEntry(parts: seq<string>, i: nat) returns (change: Change, next: nat)
    requires i < |parts| && parts[i] != ""
    ensures i < next <= |parts|
    ensures Scan(parts[i..]) == [change] + Scan(parts[next..])
  {
    ghost var rest := parts[i..];
    assert rest[0] == parts[i];
    var entry := parts[i];
    next := i + 1;
    var code := Take(entry, 2);
    var x := entry[0];
    var path := if |entry| >= 3 then entry[3..] else "";
    if EndsWith(path, "/") {
      path := path[..|path| - 1];
    }
    assert path == EntryPath(entry);
    assert code == "??" <==> |entry| >= 2 && entry[0] == '?' && entry[1] == '?' by {
      if |entry| >= 2 {
        assert code == [entry[0], entry[1]];
      }
    }
    if (x == 'R' || x == 'C') && next < |parts| {
      var newPath := parts[next];
      assert rest[1] == newPath && rest[2..] == parts[next + 1..];
      next := next + 1;
      if newPath != "" {
        path := newPath;
      }
    } else {
      assert rest[1..] == parts[next..];
    }
    var isStaged := x != ' ' && x != '?';
    var isUnstaged := code == "??" || (|entry| >= 2 && entry[1] != ' ');
    change := Change(path, isStaged, isUnstaged);
  }

  /**
   * `parsePorcelainZ`: the staged and unstaged paths of the entries, each
   * sorted and duplicate-free.
   */
  method ParsePorcelainZ(s: string) returns (staged: seq<string>, unstaged: seq<string>)
    ensures forall p :: p in staged <==> p in StagedPaths(Scan(Split(s, NUL)))
    ensures forall p :: p in unstaged <==> p in UnstagedPaths(Scan(Split(s, NUL)))
    ensures StrictlySorted(staged) && StrictlySorted(unstaged)
  {
    var parts := Split(s, NUL);
    var stagedSet: seq<string> := [];
    var unstagedSet: seq<string> := [];
    ghost var done: seq<Change> := [];
    var i := 0;
    while i < |parts|
      invariant i <= |parts|
      invariant Scan(parts) == done + Scan(parts[i..])
      invariant Seqs.Distinct(stagedSet) && Seqs.Distinct(unstagedSet)
      invariant forall p :: p in stagedSet <==> p in StagedPaths(done)
      invariant forall p :: p in unstagedSet <==> p in UnstagedPaths(done)
      decreases |parts| - i
    {
      if parts[i] == "" {
        ScanSkip(parts, i);
        i := i + 1;
        continue;
      }
      var change, next := ReadEntry(parts, i);
      Seqs.AppendAssoc(done, [change], Scan(parts[next..]));
      PathsSnoc(done, change);
      i := next;
      done := done + [change];
      if change.staged {
        stagedSet := AddTo(stagedSet, change.path);
      }
      if change.unstaged {
        unstagedSet := AddTo(unstagedSet, change.path);
      }
    }
    assert parts[i..] == [];
    assert done == Scan(parts);
    staged := SortedPaths(stagedSet);
    unstaged := SortedPaths(unstagedSet);
  }

  /** An empty field is skipped. */
  lemma ScanSkip(parts: seq<string>, i: nat)
    requires i < |parts| && parts[i] == ""
    ensures Scan(parts[i..]) == Scan(parts[i + 1..])
  {
    assert parts[i..][1..] == parts[i + 1..];
  }

  /** One more entry adds its path to the staged and/or unstaged paths. */
  lemma PathsSnoc(done: seq<Change>, c: Change)
    ensures StagedPaths(done + [c]) == StagedPaths(done) + (if c.staged then {c.path} else {})
    ensures UnstagedPaths(done + [c]) == UnstagedPaths(done) + (if c.unstaged then {c.path} else {})
  {
    assert forall d :: d in done + [c] <==> d in done || d == c;
  }

  /** `Array.from(set).sort()`: the same strings, strictly increasing. */
  method SortedPaths(set_: seq<string>) returns (r: seq<string>)
    requires Seqs.Distinct(set_)
    ensures forall p :: p in r <==> p in set_
    ensures StrictlySorted(r)
  {
    r := Sorting.SortStrings(set_);
    assert forall p :: p in r <==> p in multiset(r);
    assert forall p :: p in set_ <==> p in multiset(set_);
  }

  /** A status entry as `git status --porcelain=v1 -z` prints it; `second` is the extra path field of a rename or copy. */
  datatype StatusEntry = StatusEntry(x: char, y: char, path: string, second: Option<string>)

  predicate PrintableEntry(e: StatusEntry) {
    e.x != NUL && e.y != NUL && NUL !in e.path &&
    (e.second.Some? <==> e.x == 'R' || e.x == 'C') &&
    (e.second.Some? ==> NUL !in e.second.value)
  }

  function EntryFields(e: StatusEntry): seq<string> {
    [[e.x, e.y, ' '] + e.path] + (if e.second.Some? then [e.second.value] else [])
  }

  function StatusFields(es: seq<StatusEntry>): seq<string> {
    if |es| == 0 then [] else EntryFields(es[0]) + StatusFields(es[1..])
  }

  /** The printed status: every field followed by a NUL. */
  function FormatStatus(es: seq<StatusEntry>): string {
    Join(StatusFields(es) + [""], NUL)
  }

  /** How an entry is classified: the path (the second field when non-empty), staged iff X is not ' ' or '?', unstaged iff `??` or Y is not ' '. */
  function Expected(e: StatusEntry): Change {
    var path := if e.second.Some? && |e.second.value| > 0 then e.second.value else StripSlash(e.path);
    Change(path, e.x != ' ' && e.x != '?', (e.x == '?' && e.y == '?') || e.y != ' ')
  }

  /** The code field of an entry is read back as the entry's path and classification. */
  lemma ReadEntryField(e: StatusEntry)
    ensures var entry := [e.x, e.y, ' '] + e.path;
      var x := Expected(e);
      StagedCode(entry) == x.staged && UnstagedCode(entry) == x.unstaged &&
      RenameOrCopy(entry) == (e.x == 'R' || e.x == 'C') &&
      (e.second.None? || e.second.value == "" ==> EntryPath(entry) == x.path)
  {
    var entry := [e.x, e.y, ' '] + e.path;
    assert entry[3..] == e.path;
  }

  lemma ScanEntryFields(e: StatusEntry, rest: seq<string>)
    requires PrintableEntry(e)
    requires |rest| >= 1
    ensures Scan(EntryFields(e) + rest) == [Expected(e)] + Scan(rest)
  {
    var entry := [e.x, e.y, ' '] + e.path;
    ReadEntryField(e);
    var parts := EntryFields(e) + rest;
    assert parts[0] == entry;
    if e.second.Some? {
      assert parts[1] == e.second.value;
      assert parts[2..] == rest;
      var path := if parts[1] != "" then parts[1] else EntryPath(entry);
      assert Scan(parts) == [Change(path, StagedCode(entry), UnstagedCode(entry))] + Scan(parts[2..]);
    } else {
      assert parts[1..] == rest;
      assert Scan(parts) == [Change(EntryPath(entry), StagedCode(entry), UnstagedCode(entry))] + Scan(parts[1..]);
    }
  }

  /** The classification of each entry, in order. */
  function ExpectedAll(es: seq<StatusEntry>): (cs: seq<Change>)
    ensures |cs| == |es|
  {
    if |es| == 0 then [] else [Expected(es[0])] + ExpectedAll(es[1..])
  }

  lemma StatusFieldsCons(es: seq<StatusEntry>, tail: seq<string>)
    requires es != []
    ensures StatusFields(es) + tail == EntryFields(es[0]) + (StatusFields(es[1..]) + tail)
  {
  }

  lemma {:induction false} ScanStatusFields(es: seq<StatusEntry>, tail: seq<string>)
    requires forall e :: e in es ==> PrintableEntry(e)
    requires |tail| >= 1
    ensures Scan(StatusFields(es) + tail) == ExpectedAll(es) + Scan(tail)
  {
    if es == [] {
      assert StatusFields(es) + tail == tail;
    } else {
      ScanStatusFields(es[1..], tail);
      ScanStatusFieldsStep(es, tail);
    }
  }

  lemma ScanStatusFieldsStep(es: seq<StatusEntry>, tail: seq<string>)
    requires es != [] && PrintableEntry(es[0])
    requires |tail| >= 1
    requires Scan(StatusFields(es[1..]) + tail) == ExpectedAll(es[1..]) + Scan(tail)
    ensures Scan(StatusFields(es) + tail) == ExpectedAll(es) + Scan(tail)
  {
    var restParts := StatusFields(es[1..]) + tail;
    StatusFieldsCons(es, tail);
    ScanEntryFields(es[0], restParts);
    Seqs.ConsAppend(Expected(es[0]), ExpectedAll(es[1..]), Scan(tail));
  }

  lemma {:induction false} StatusFieldsNoNul(es: seq<StatusEntry>)
    requires forall e :: e in es ==> PrintableEntry(e)
    ensures forall k :: 0 <= k < |StatusFields(es)| ==> NUL !in StatusFields(es)[k]
  {
    if es != [] {
      StatusFieldsNoNul(es[1..]);
      assert es[0] in es;
      var fs := StatusFields(es);
      var n := |EntryFields(es[0])|;
      assert fs == EntryFields(es[0]) + StatusFields(es[1..]);
      forall k | 0 <= k < |fs| ensures NUL !in fs[k] {
        if k < n {
          assert fs[k] == EntryFields(es[0])[k];
          if k == 0 {
            assert fs[k] == [es[0].x, es[0].y, ' '] + es[0].path;
          }
        } else {
          assert fs[k] == StatusFields(es[1..])[k - n];
        }
      }
    }
  }

  /**
   * The reader inverts git's printed status: reading it back gives one
   * classified entry per printed entry, in order.
   */
  lemma ScanFormatStatus(es: seq<StatusEntry>)
    requires forall e :: e in es ==> PrintableEntry(e)
    ensures Scan(Split(FormatStatus(es), NUL)) == ExpectedAll(es)
  {
    var fs := StatusFields(es) + [""];
    StatusFieldsNoNul(es);
    assert forall k :: 0 <= k < |fs| ==> NUL !in fs[k];
    SplitJoin(fs, NUL);
    ScanStatusFields(es, [""]);
    assert Scan([""]) == [];
  }

  // ---------------------------------------------------------------------------
  // stage
  // ---------------------------------------------------------------------------

  datatype StageError = InvalidAction | NoPaths

  /** The arguments after `-C <path>`: `add --` to stage, `reset HEAD --` to unstage. */
  function Verb(action: string): seq<string> {
    if action == "stage" then ["add", "--"] else ["reset", "HEAD", "--"]
  }

  /** An element of the `paths` variable: a string, or any other JSON value. */
  datatype PathArg = PathStr(s: string) | NotString

  /**
   * `paths.filter(p => typeof p === 'string' && p.length > 0)`: the
   * non-empty strings, in order.
   */
  function StringPaths(ps: seq<PathArg>): (r: seq<string>)
    ensures |r| <= |ps|
    ensures forall x :: x in r <==> x != "" && PathStr(x) in ps
  {
    if |ps| == 0 then []
    else
      var rest := StringPaths(ps[1..]);
      assert forall a :: a in ps <==> a == ps[0] || a in ps[1..];
      if ps[0].PathStr? && ps[0].s != "" then [ps[0].s] + rest else rest
  }

  /** The filter keeps the order of the array: it distributes over concatenation. */
  lemma {:induction false} StringPathsAppend(ps: seq<PathArg>, qs: seq<PathArg>)
    ensures StringPaths(ps + qs) == StringPaths(ps) + StringPaths(qs)
  {
    if |ps| > 0 {
      assert (ps + qs)[1..] == ps[1..] + qs;
      StringPathsAppend(ps[1..], qs);
    } else {
      assert ps + qs == qs;
    }
  }

  /**
   * The checks and the argument vector of `stage`: the path list keeps the
   * non-empty strings of an array `paths`, in order (none when `paths` is
   * not an array); the action is checked before the list.
   */
  function StageArgs(repoPath: string, action: string, paths: Option<seq<PathArg>>): (r: Result<seq<string>, StageError>)
    ensures r == Err(InvalidAction) <==> action != "stage" && action != "unstage"
    ensures r == Err(NoPaths) <==>
              (action == "stage" || action == "unstage") &&
              (paths.None? || forall p :: p in paths.value ==> p.NotString? || p.s == "")
    ensures r.Ok? ==>
              var list := StringPaths(paths.value);
              |r.value| == 2 + |Verb(action)| + |list| &&
              r.value[..2] == ["-C", repoPath] &&
              r.value[2 .. 2 + |Verb(action)|] == Verb(action) &&
              r.value[2 + |Verb(action)|..] == list
  {
    var list := if paths.Some? then StringPaths(paths.value) else [];
    if action != "stage" && action != "unstage" then Err(InvalidAction)
    else if |list| == 0 then
      Err(NoPaths)
    else
      assert list[0] in list;
      var args := ["-C", repoPath] + Verb(action) + list;
      assert args[..2] == ["-C", repoPath];
      assert args[2 .. 2 + |Verb(action)|] == Verb(action);
      assert args[2 + |Verb(action)|..] == list;
      Ok(args)
  }
}
