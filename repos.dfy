/**
 * How the repository list names a repository's current branch (`readBranch`
 * in src/lib/repos.js). The HEAD file of a bare repository is tried first,
 * then the `.git/HEAD` of a working tree; the first file that can be read
 * decides. Its trimmed content is either a symbolic ref (`ref: refs/heads/x`),
 * which gives the ref's last path segment, or a full commit id, which gives
 * `detached@` and the abbreviated id; anything else gives null.
 */
module Repos {
  import opened Wrappers
  import opened Strings

  /** What reading one candidate HEAD file gives: its text, or a failure. */
  datatype ReadResult = Unreadable | Content(text: string)

  const RefPrefix: string := "ref:"
  const DetachedPrefix: string := "detached@"

  predicate IsHexDigit(c: char) {
    ('0' <= c <= '9') || ('a' <= c <= 'f') || ('A' <= c <= 'F')
  }

  /** `/^[0-9a-fA-F]{40}$/`: a full commit id. */
  predicate IsFullSha(s: string) {
    |s| == 40 && forall k :: 0 <= k < |s| ==> IsHexDigit(s[k])
  }

  // ---------------------------------------------------------------------------
  // Interpreting one HEAD file
  // ---------------------------------------------------------------------------

  /** The last piece of `ref.split('/')`. */
  function LastSegment(ref: string): string {
    var parts := Split(ref, '/');
    parts[|parts| - 1]
  }

  /** Past the first '/', the last segment is that of the rest. */
  lemma LastSegmentStep(ref: string, i: nat)
    requires i < |ref| && IndexOfChar(ref, '/') == i
    ensures LastSegment(ref) == LastSegment(ref[i + 1..])
  {
    var tail := Split(ref[i + 1..], '/');
    assert Split(ref, '/') == [ref[..i]] + tail;
  }

  /** A suffix of the text after a '/' that starts after a '/' is one of the whole text too. */
  lemma SuffixAfterSlash(ref: string, i: nat, seg: string)
    requires i < |ref| && ref[i] == '/'
    requires EndsWith(ref[i + 1..], seg)
    requires |seg| == |ref| - i - 1 || ref[i + 1..][|ref| - i - 1 - |seg| - 1] == '/'
    ensures EndsWith(ref, seg) && ref[|ref| - |seg| - 1] == '/'
  {
    var rest := ref[i + 1..];
    assert ref[|ref| - |seg|..] == rest[|rest| - |seg|..];
  }

  /**
   * The last segment is the text after the last '/': a '/'-free suffix of
   * the ref that is either the whole ref or preceded by a '/'.
   */
  lemma {:induction false} LastSegmentSpec(ref: string)
    ensures var seg := LastSegment(ref);
      '/' !in seg && EndsWith(ref, seg) &&
      (|seg| == |ref| || ref[|ref| - |seg| - 1] == '/')
    decreases |ref|
  {
    var i := IndexOfChar(ref, '/');
    if i < 0 {
      IndexOfCharSpec(ref, '/');
      assert Split(ref, '/') == [ref];
    } else {
      LastSegmentSpec(ref[i + 1..]);
      LastSegmentStep(ref, i);
      SuffixAfterSlash(ref, i, LastSegment(ref));
    }
  }

  /**
   * The branch named by the (untrimmed) content of a HEAD file: the last
   * segment of a symbolic ref, null when that segment is empty,
   * `detached@` and the first seven digits of a full commit id, and null
   * for anything else.
   */
  function InterpretHead(content: string): (r: Option<string>)
    ensures r.Some? ==> r.value != ""
  {
    var raw := Trim(content);
    if StartsWith(raw, RefPrefix) then
      var seg := LastSegment(Trim(raw[|RefPrefix|..]));
      if seg == "" then None else Some(seg)
    else if IsFullSha(raw) then Some(DetachedPrefix + raw[..7])
    else None
  }

  /**
   * Every content yields one of three shapes: a non-empty '/'-free suffix
   * of the trimmed ref after `ref:`, `detached@` and seven hex digits of a
   * full commit id, or null; content that is neither a symbolic ref nor a
   * full commit id yields null.
   */
  lemma InterpretHeadShape(content: string)
    ensures var raw := Trim(content);
      var branch := InterpretHead(content);
      (branch.Some? && StartsWith(raw, RefPrefix) ==>
        branch.value != "" && '/' !in branch.value &&
        EndsWith(Trim(raw[|RefPrefix|..]), branch.value)) &&
      (branch.Some? && !StartsWith(raw, RefPrefix) ==>
        IsFullSha(raw) && branch.value == DetachedPrefix + raw[..7] &&
        forall k :: |DetachedPrefix| <= k < |branch.value| ==> IsHexDigit(branch.value[k])) &&
      (!StartsWith(raw, RefPrefix) && !IsFullSha(raw) ==> branch.None?)
  {
    var raw := Trim(content);
    if StartsWith(raw, RefPrefix) {
      LastSegmentSpec(Trim(raw[|RefPrefix|..]));
    } else if IsFullSha(raw) {
      var v := DetachedPrefix + raw[..7];
      assert forall k :: |DetachedPrefix| <= k < |v| ==> v[k] == raw[k - |DetachedPrefix|];
    }
  }

  /** Content that trims to `ref: ` and a ref names the ref's last segment. */
  lemma SymbolicHead(content: string, ref: string)
    requires ref != [] && !IsJsSpace(ref[0]) && !IsJsSpace(ref[|ref| - 1])
    requires Trim(content) == RefPrefix + " " + ref
    ensures var seg := LastSegment(ref);
      InterpretHead(content) == if seg == "" then None else Some(seg)
  {
    var raw := RefPrefix + " " + ref;
    assert raw[..|RefPrefix|] == RefPrefix;
    assert raw[|RefPrefix|..] == " " + ref + "";
    TrimPadded(" ", ref, "");
  }

  /** The last segment of a ref is the last of the pieces it splits into. */
  lemma LastOfSplit(ref: string, parts: seq<string>)
    requires |parts| >= 1 && Split(ref, '/') == parts
    ensures LastSegment(ref) == parts[|parts| - 1]
  {
  }

  /** The last segment of '/'-free segments joined with '/' is the last of them. */
  lemma LastSegmentOfJoin(segs: seq<string>)
    requires |segs| >= 1
    requires forall k :: 0 <= k < |segs| ==> '/' !in segs[k]
    ensures LastSegment(Join(segs, '/')) == segs[|segs| - 1]
  {
    SplitJoin(segs, '/');
    LastOfSplit(Join(segs, '/'), segs);
  }

  /**
   * A symbolic ref, padded with white space (a HEAD file ends with a line
   * feed), names the last segment of the ref, or null when that segment is
   * empty: `ref: refs/heads/feature/x` names `x`, `ref: refs/heads/` names
   * nothing.
   */
  lemma RefHead(pre: string, segs: seq<string>, post: string)
    requires forall k :: 0 <= k < |pre| ==> IsJsSpace(pre[k])
    requires forall k :: 0 <= k < |post| ==> IsJsSpace(post[k])
    requires |segs| >= 1
    requires forall k :: 0 <= k < |segs| ==> '/' !in segs[k]
    requires var ref := Join(segs, '/');
      ref != [] && !IsJsSpace(ref[0]) && !IsJsSpace(ref[|ref| - 1])
    ensures var last := segs[|segs| - 1];
      InterpretHead(pre + (RefPrefix + " " + Join(segs, '/')) + post) ==
        if last == "" then None else Some(last)
  {
    var ref := Join(segs, '/');
    var raw := RefPrefix + " " + ref;
    assert raw[0] == RefPrefix[0] && raw[|raw| - 1] == ref[|ref| - 1];
    TrimPadded(pre, raw, post);
    LastSegmentOfJoin(segs);
    SymbolicHead(pre + raw + post, ref);
  }

  /**
   * A full commit id, padded with white space, names `detached@` and its
   * first seven digits.
   */
  lemma DetachedHead(pre: string, sha: string, post: string)
    requires forall k :: 0 <= k < |pre| ==> IsJsSpace(pre[k])
    requires forall k :: 0 <= k < |post| ==> IsJsSpace(post[k])
    requires IsFullSha(sha)
    ensures InterpretHead(pre + sha + post) == Some(DetachedPrefix + sha[..7])
  {
    assert IsHexDigit(sha[0]) && IsHexDigit(sha[39]);
    TrimPadded(pre, sha, post);
    assert sha[..|RefPrefix|][0] == sha[0];
  }

  // ---------------------------------------------------------------------------
  // Trying the candidates
  // ---------------------------------------------------------------------------

  /** Candidate `k` is the first one that could be read. */
  predicate FirstReadable(results: seq<ReadResult>, k: int) {
    0 <= k < |results| && results[k].Content? &&
    forall j :: 0 <= j < k ==> results[j].Unreadable?
  }

  /**
   * The loop over the candidates: a read failure moves on to the next
   * candidate; the first readable one decides, even when its content names
   * no branch; null when none is readable.
   */
  method ReadFirstHead(results: seq<ReadResult>) returns (branch: Option<string>)
    ensures forall k :: FirstReadable(results, k) ==> branch == InterpretHead(results[k].text)
    ensures (forall j :: 0 <= j < |results| ==> results[j].Unreadable?) ==> branch == None
  {
    var k := 0;
    while k < |results|
      invariant 0 <= k <= |results|
      invariant forall j :: 0 <= j < k ==> results[j].Unreadable?
    {
      if results[k].Content? {
        return InterpretHead(results[k].text);
      }
      k := k + 1;
    }
    return None;
  }

  /**
   * `readBranch`, given what reading the repository's `HEAD` and its
   * `.git/HEAD` gave: the bare layout is tried first.
   */
  method ReadBranch(bareHead: ReadResult, workTreeHead: ReadResult) returns (branch: Option<string>)
    ensures bareHead.Content? ==> branch == InterpretHead(bareHead.text)
    ensures bareHead.Unreadable? && workTreeHead.Content? ==>
      branch == InterpretHead(workTreeHead.text)
    ensures bareHead.Unreadable? && workTreeHead.Unreadable? ==> branch == None
  {
    var results := [bareHead, workTreeHead];
    branch := ReadFirstHead(results);
    assert FirstReadable(results, 0) || FirstReadable(results, 1) ||
      (bareHead.Unreadable? && workTreeHead.Unreadable?);
  }
}
