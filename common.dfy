/** Small failure-compatible wrappers shared by every module. */
module Wrappers {
  datatype Option<T> = None | Some(value: T)

  datatype Result<T, E> = Ok(value: T) | Err(error: E)
}

/**
 * Sequence identities, each stated once over an arbitrary element type so
 * that proofs about the application's own sequences can cite them.
 */
module Seqs {
  lemma ConsAppend<T>(x: T, a: seq<T>, b: seq<T>)
    ensures [x] + (a + b) == ([x] + a) + b
  {
  }

  lemma AppendAssoc<T>(a: seq<T>, b: seq<T>, c: seq<T>)
    ensures (a + b) + c == a + (b + c)
  {
  }

  /** The two halves of a concatenation are its operands. */
  lemma AppendParts<T>(a: seq<T>, b: seq<T>)
    ensures (a + b)[..|a|] == a && (a + b)[|a|..] == b
  {
  }

  /** A slice of a suffix is a slice of the whole. */
  lemma SliceOfDrop<T>(s: seq<T>, d: nat, a: nat, b: nat)
    requires d + b <= |s| && a <= b
    ensures s[d..][a..b] == s[d + a .. d + b]
  {
  }

  /** Membership in a sequence cut at `i`. */
  lemma MemberSplit<T>(x: T, a: seq<T>, i: nat)
    requires i <= |a|
    ensures x in a <==> x in a[..i] || x in a[i..]
  {
    assert a == a[..i] + a[i..];
  }

  /** Membership in the sequence `a[..i] + b + a[i..]`. */
  lemma MemberInserted<T>(x: T, a: seq<T>, i: nat, b: seq<T>)
    requires i <= |a|
    ensures x in a[..i] + b + a[i..] <==> x in a || x in b
  {
    MemberSplit(x, a, i);
  }

  /** No element occurs twice. */
  predicate Distinct<T(==)>(s: seq<T>) {
    forall i, j :: 0 <= i < j < |s| ==> s[i] != s[j]
  }

  lemma HeadTail<T>(s: seq<T>)
    requires |s| > 0
    ensures s == [s[0]] + s[1..]
  {
  }

  /**
   * The distinct elements of `s` in the order they first occur: what a
   * JavaScript `Set` filled from `s` iterates.
   */
  function Dedup<T(==)>(s: seq<T>): seq<T>
    decreases |s|
  {
    if s == [] then []
    else
      var d := Dedup(s[..|s| - 1]);
      if s[|s| - 1] in d then d else d + [s[|s| - 1]]
  }

  /** Adding one more element to the `Set`: kept only when it is new. */
  lemma DedupSnoc<T>(s: seq<T>, x: T)
    ensures Dedup(s + [x]) == if x in Dedup(s) then Dedup(s) else Dedup(s) + [x]
  {
    assert (s + [x])[..|s|] == s;
  }

  /** A deduplicated sequence has no repeats and holds exactly the elements of the input. */
  lemma {:induction false} DedupSpec<T>(s: seq<T>)
    ensures Distinct(Dedup(s))
    ensures forall x :: x in Dedup(s) <==> x in s
    decreases |s|
  {
    if s != [] {
      var init := s[..|s| - 1];
      DedupSpec(init);
      assert s == init + [s[|s| - 1]];
    }
  }
}

/**
 * The handful of JavaScript string operations the application relies on,
 * written out with JavaScript's semantics: `split` with a one-character
 * separator, `join`, `trim` (JavaScript's white-space set), ASCII
 * `toLowerCase`, `startsWith` and `slice`. The functions promise only
 * lengths; what they compute is stated by the lemmas beside them.
 */
module Strings {
  import Seqs

  predicate StartsWith(s: string, prefix: string) {
    |prefix| <= |s| && s[..|prefix|] == prefix
  }

  predicate EndsWith(s: string, suffix: string) {
    |suffix| <= |s| && s[|s| - |suffix|..] == suffix
  }

  /** `a || b` on strings: the empty string is falsy. */
  function Or(a: string, b: string): string {
    if |a| > 0 then a else b
  }

  function Min(a: int, b: int): int { if a < b then a else b }

  function Max(a: int, b: int): int { if a < b then b else a }

  /** `s.slice(0, n)` for n >= 0. */
  function Take(s: string, n: nat): (r: string)
    ensures |r| == Min(n, |s|)
  {
    if n < |s| then s[..n] else s
  }

  /** `s.indexOf(c)` for a single character: the first position of `c`, or -1. */
  function IndexOfChar(s: string, c: char): (i: int)
    ensures -1 <= i < |s|
    ensures 0 <= i ==> s[i] == c
  {
    if |s| == 0 then -1
    else if s[0] == c then 0
    else
      var j := IndexOfChar(s[1..], c);
      if j < 0 then -1 else j + 1
  }

  /** -1 exactly when `c` does not occur; otherwise no earlier position holds `c`. */
  lemma {:induction false} IndexOfCharSpec(s: string, c: char)
    ensures IndexOfChar(s, c) == -1 <==> c !in s
    ensures 0 <= IndexOfChar(s, c) ==> c !in s[..IndexOfChar(s, c)]
  {
    if |s| > 0 && s[0] != c {
      IndexOfCharSpec(s[1..], c);
      var j := IndexOfChar(s[1..], c);
      assert c in s <==> c in s[1..];
      if 0 <= j {
        assert s[..j + 1] == [s[0]] + s[1..][..j];
      }
    }
  }

  /** A position holding `c` with no `c` before it is what `indexOf` finds. */
  lemma IndexOfCharAt(s: string, c: char, i: nat)
    requires i < |s| && s[i] == c && c !in s[..i]
    ensures IndexOfChar(s, c) == i
  {
    IndexOfCharSpec(s, c);
    assert forall j :: 0 <= j < i ==> s[..i][j] == s[j];
    assert forall j :: i < j <= |s| ==> s[..j][i] == c;
  }

  /** `s.split(sep)` for a one-character separator: always at least one piece. */
  function Split(s: string, sep: char): (parts: seq<string>)
    ensures |parts| >= 1
    decreases |s|
  {
    var i := IndexOfChar(s, sep);
    if i < 0 then [s] else [s[..i]] + Split(s[i + 1..], sep)
  }

  /** No piece of a split contains the separator. */
  lemma {:induction false} SplitNoSeparator(s: string, sep: char)
    ensures forall k :: 0 <= k < |Split(s, sep)| ==> sep !in Split(s, sep)[k]
    decreases |s|
  {
    IndexOfCharSpec(s, sep);
    var i := IndexOfChar(s, sep);
    if i >= 0 {
      SplitNoSeparator(s[i + 1..], sep);
    }
  }

  /** `parts.join(sep)` for a one-character separator. */
  function Join(parts: seq<string>, sep: char): string
  {
    if |parts| == 0 then ""
    else if |parts| == 1 then parts[0]
    else parts[0] + [sep] + Join(parts[1..], sep)
  }

  /** A join is at least as long as its first part. */
  lemma JoinLength(parts: seq<string>, sep: char)
    requires |parts| >= 1
    ensures |Join(parts, sep)| >= |parts[0]|
  {
  }

  /** Joining the pieces of a split gives back the original string. */
  lemma {:induction false} JoinSplit(s: string, sep: char)
    ensures Join(Split(s, sep), sep) == s
    decreases |s|
  {
    var i := IndexOfChar(s, sep);
    if i >= 0 {
      var rest := s[i + 1..];
      var tail := Split(rest, sep);
      JoinSplit(rest, sep);
      JoinCons(s[..i], tail, sep);
      assert s == s[..i] + [sep] + rest;
    }
  }

  /** Joining one more piece appends the separator and the piece. */
  lemma {:induction false} JoinSnoc(parts: seq<string>, x: string, sep: char)
    requires |parts| >= 1
    ensures Join(parts + [x], sep) == Join(parts, sep) + [sep] + x
    decreases |parts|
  {
    var q := parts + [x];
    if |parts| == 1 {
      assert q[1..] == [x];
    } else {
      assert q[1..] == parts[1..] + [x];
      JoinSnoc(parts[1..], x, sep);
    }
  }

  lemma JoinCons(p: string, tail: seq<string>, sep: char)
    requires |tail| >= 1
    ensures Join([p] + tail, sep) == p + [sep] + Join(tail, sep)
  {
    assert ([p] + tail)[1..] == tail;
  }

  lemma IndexOfCharAfterPiece(p: string, sep: char, tail: string)
    requires sep !in p
    ensures IndexOfChar(p + [sep] + tail, sep) == |p|
  {
    var s := p + [sep] + tail;
    IndexOfCharSpec(s, sep);
    assert s[|p|] == sep;
    assert s[..|p|] == p;
    assert s[..|p| + 1][|p|] == sep;
  }

  /** Splitting a join of separator-free pieces gives back the pieces. */
  lemma {:induction false} SplitJoin(parts: seq<string>, sep: char)
    requires |parts| >= 1
    requires forall k :: 0 <= k < |parts| ==> sep !in parts[k]
    ensures Split(Join(parts, sep), sep) == parts
  {
    if |parts| == 1 {
      IndexOfCharSpec(parts[0], sep);
    } else {
      SplitCons(parts[0], sep, Join(parts[1..], sep));
      SplitJoin(parts[1..], sep);
      Seqs.HeadTail(parts);
    }
  }

  /** A separator-free piece followed by the separator splits off as the first piece. */
  lemma SplitCons(p: string, sep: char, tail: string)
    requires sep !in p
    ensures Split(p + [sep] + tail, sep) == [p] + Split(tail, sep)
  {
    var s := p + [sep] + tail;
    IndexOfCharAfterPiece(p, sep, tail);
    assert s[..|p|] == p;
    assert s[|p| + 1..] == tail;
  }

  /** `parts.filter(Boolean)` on strings: the non-empty pieces, in order. */
  function NonEmpty(parts: seq<string>): (r: seq<string>)
    ensures |r| <= |parts|
  {
    if |parts| == 0 then []
    else if |parts[0]| == 0 then NonEmpty(parts[1..])
    else [parts[0]] + NonEmpty(parts[1..])
  }

  /** Filtering keeps exactly the non-empty pieces. */
  lemma {:induction false} NonEmptySpec(parts: seq<string>)
    ensures forall k :: 0 <= k < |NonEmpty(parts)| ==> NonEmpty(parts)[k] != ""
    ensures forall x :: x in NonEmpty(parts) <==> x in parts && x != ""
  {
    if |parts| > 0 {
      NonEmptySpec(parts[1..]);
      assert forall x :: x in parts <==> x == parts[0] || x in parts[1..];
    }
  }

  lemma {:induction false} NonEmptyOfNonEmpty(parts: seq<string>)
    requires forall k :: 0 <= k < |parts| ==> parts[k] != ""
    ensures NonEmpty(parts) == parts
  {
    if |parts| > 0 {
      NonEmptyOfNonEmpty(parts[1..]);
    }
  }

  /** Filtering drops at least one piece when one of them is empty. */
  lemma {:induction false} NonEmptyDrops(parts: seq<string>)
    requires "" in parts
    ensures |NonEmpty(parts)| < |parts|
  {
    if parts[0] != "" {
      NonEmptyDrops(parts[1..]);
    }
  }

  /**
   * JavaScript's WhiteSpace and LineTerminator characters, the ones `trim`
   * removes: tab, line feed, vertical tab, form feed, carriage return,
   * space, no-break space, the Unicode space separators, the line and
   * paragraph separators and the byte order mark.
   */
  predicate IsJsSpace(c: char) {
    ('\t' <= c <= '\r') || c == ' ' || c == '\U{00A0}' || c == '\U{1680}' ||
    ('\U{2000}' <= c <= '\U{200A}') || c == '\U{2028}' || c == '\U{2029}' ||
    c == '\U{202F}' || c == '\U{205F}' || c == '\U{3000}' || c == '\U{FEFF}'
  }

  /** `s.trimStart()`: `s` without its leading white space. */
  function TrimStart(s: string): (r: string)
    ensures |r| <= |s|
  {
    if |s| > 0 && IsJsSpace(s[0]) then TrimStart(s[1..]) else s
  }

  /** `s.trimEnd()`: `s` without its trailing white space. */
  function TrimEnd(s: string): (r: string)
    ensures |r| <= |s|
  {
    if |s| > 0 && IsJsSpace(s[|s| - 1]) then TrimEnd(s[..|s| - 1]) else s
  }

  /** `s.trim()`. */
  function Trim(s: string): (r: string)
    ensures |r| <= |s|
  {
    TrimEnd(TrimStart(s))
  }

  /** `trimStart` removes a white-space prefix and stops at the first other character. */
  lemma {:induction false} TrimStartSpec(s: string)
    ensures var r := TrimStart(s);
      r == s[|s| - |r|..] &&
      (r != [] ==> !IsJsSpace(r[0])) &&
      forall k :: 0 <= k < |s| - |r| ==> IsJsSpace(s[k])
  {
    if |s| > 0 && IsJsSpace(s[0]) {
      TrimStartSpec(s[1..]);
    }
  }

  /** `trimEnd` removes a white-space suffix and stops at the last other character. */
  lemma {:induction false} TrimEndSpec(s: string)
    ensures var r := TrimEnd(s);
      r == s[..|r|] &&
      (r != [] ==> !IsJsSpace(r[|r| - 1])) &&
      forall k :: |r| <= k < |s| ==> IsJsSpace(s[k])
  {
    if |s| > 0 && IsJsSpace(s[|s| - 1]) {
      var t := s[..|s| - 1];
      TrimEndSpec(t);
      var r := TrimEnd(t);
      assert t[..|r|] == s[..|r|];
      forall k | |r| <= k < |s| ensures IsJsSpace(s[k]) {
        if k < |t| {
          assert t[k] == s[k];
        }
      }
    }
  }

  /**
   * `trim` keeps the infix that starts after the leading white space: it
   * neither starts nor ends with white space, and everything it drops is
   * white space.
   */
  lemma TrimSpec(s: string)
    ensures var r := Trim(s);
      var a := |s| - |TrimStart(s)|;
      a + |r| <= |s| && r == s[a .. a + |r|] &&
      (r != [] ==> !IsJsSpace(r[0]) && !IsJsSpace(r[|r| - 1])) &&
      (forall k :: 0 <= k < a ==> IsJsSpace(s[k])) &&
      (forall k :: a + |r| <= k < |s| ==> IsJsSpace(s[k]))
  {
    var t := TrimStart(s);
    TrimStartSpec(s);
    TrimEndSpec(t);
    var r := TrimEnd(t);
    var a := |s| - |t|;
    assert r == t[..|r|];
    forall k | a + |r| <= k < |s| ensures IsJsSpace(s[k]) {
      assert s[k] == t[k - a];
    }
  }

  /** Trimming a string whose ends are not white space changes nothing. */
  lemma TrimUntouched(s: string)
    requires s != [] ==> !IsJsSpace(s[0]) && !IsJsSpace(s[|s| - 1])
    ensures Trim(s) == s
  {
  }

  /** White space in front of a string is what `trimStart` removes. */
  lemma {:induction false} TrimStartPadded(pre: string, t: string)
    requires forall k :: 0 <= k < |pre| ==> IsJsSpace(pre[k])
    ensures TrimStart(pre + t) == TrimStart(t)
  {
    if |pre| > 0 {
      assert (pre + t)[1..] == pre[1..] + t;
      TrimStartPadded(pre[1..], t);
    } else {
      assert pre + t == t;
    }
  }

  /** White space after a string is what `trimEnd` removes. */
  lemma {:induction false} TrimEndPadded(t: string, post: string)
    requires forall k :: 0 <= k < |post| ==> IsJsSpace(post[k])
    ensures TrimEnd(t + post) == TrimEnd(t)
  {
    if |post| > 0 {
      var p := post[..|post| - 1];
      assert (t + post)[..|t + post| - 1] == t + p;
      TrimEndPadded(t, p);
    } else {
      assert t + post == t;
    }
  }

  /** `trim` strips white-space padding from a string whose ends are not white space. */
  lemma TrimPadded(pre: string, s: string, post: string)
    requires forall k :: 0 <= k < |pre| ==> IsJsSpace(pre[k])
    requires forall k :: 0 <= k < |post| ==> IsJsSpace(post[k])
    requires s != [] ==> !IsJsSpace(s[0]) && !IsJsSpace(s[|s| - 1])
    ensures Trim(pre + s + post) == s
  {
    assert pre + s + post == pre + (s + post);
    TrimStartPadded(pre, s + post);
    if s != [] {
      assert (s + post)[0] == s[0];
      assert TrimStart(s + post) == s + post;
      TrimEndPadded(s, post);
    } else {
      TrimStartPadded(post, []);
      assert s + post == post + [];
      assert TrimStart(s + post) == [];
    }
  }

  /** Trimming is idempotent. */
  lemma TrimTrim(s: string)
    ensures Trim(Trim(s)) == Trim(s)
  {
    TrimSpec(s);
    TrimUntouched(Trim(s));
  }

  predicate IsAsciiUpper(c: char) { 'A' <= c <= 'Z' }

  function LowerChar(c: char): char {
    if IsAsciiUpper(c) then (c as int + 32) as char else c
  }

  /** `s.toLowerCase()` restricted to the ASCII letters. */
  function ToLower(s: string): (r: string)
    ensures |r| == |s|
  {
    if |s| == 0 then "" else [LowerChar(s[0])] + ToLower(s[1..])
  }

  /** Lower-casing maps each character on its own. */
  lemma {:induction false} ToLowerSpec(s: string)
    ensures forall k :: 0 <= k < |s| ==> ToLower(s)[k] == LowerChar(s[k])
  {
    if |s| > 0 {
      ToLowerSpec(s[1..]);
    }
  }
}

/**
 * Sorting as `Array.prototype.sort` does it for a comparator that is a total
 * preorder: an insertion sort, proved to return a sorted permutation.
 */
module Sorting {

  predicate SortedBy<T>(s: seq<T>, leq: (T, T) -> bool) {
    forall i, j :: 0 <= i < j < |s| ==> leq(s[i], s[j])
  }

  ghost predicate Total<T(!new)>(leq: (T, T) -> bool) {
    forall a, b :: leq(a, b) || leq(b, a)
  }

  ghost predicate Transitive<T(!new)>(leq: (T, T) -> bool) {
    forall a, b, c :: leq(a, b) && leq(b, c) ==> leq(a, c)
  }

  function Insert<T(!new)>(x: T, s: seq<T>, leq: (T, T) -> bool): (r: seq<T>)
    ensures |r| == |s| + 1
    ensures multiset(r) == multiset(s) + multiset{x}
  {
    if s == [] || leq(x, s[0]) then
      [x] + s
    else
      assert s == [s[0]] + s[1..];
      [s[0]] + Insert(x, s[1..], leq)
  }

  /** Inserting into a sorted sequence keeps it sorted. */
  lemma {:induction false} InsertSorted<T(!new)>(x: T, s: seq<T>, leq: (T, T) -> bool)
    requires Total(leq) && Transitive(leq) && SortedBy(s, leq)
    ensures SortedBy(Insert(x, s, leq), leq)
  {
    if s == [] || leq(x, s[0]) {
      forall k | 0 <= k < |s| ensures leq(x, s[k]) {
        if k > 0 {
          assert leq(s[0], s[k]);
        }
      }
      ConsSorted(x, s, leq);
    } else {
      assert SortedBy(s[1..], leq);
      InsertSorted(x, s[1..], leq);
      forall k | 0 <= k < |s[1..]| ensures leq(s[0], s[1..][k]) {
        assert s[1..][k] == s[k + 1];
      }
      InsertBelow(s[0], x, s[1..], leq);
      ConsSorted(s[0], Insert(x, s[1..], leq), leq);
    }
  }

  /** A lower bound of `x` and of every element of `s` bounds the insertion too. */
  lemma {:induction false} InsertBelow<T(!new)>(y: T, x: T, s: seq<T>, leq: (T, T) -> bool)
    requires leq(y, x) && forall k :: 0 <= k < |s| ==> leq(y, s[k])
    ensures forall k :: 0 <= k < |Insert(x, s, leq)| ==> leq(y, Insert(x, s, leq)[k])
  {
    if s != [] && !leq(x, s[0]) {
      InsertBelow(y, x, s[1..], leq);
    }
  }

  /** Prefixing a lower bound to a sorted sequence keeps it sorted. */
  lemma ConsSorted<T>(y: T, t: seq<T>, leq: (T, T) -> bool)
    requires SortedBy(t, leq) && forall k :: 0 <= k < |t| ==> leq(y, t[k])
    ensures SortedBy([y] + t, leq)
  {
    var r := [y] + t;
    forall i, j | 0 <= i < j < |r| ensures leq(r[i], r[j]) {
      if i > 0 {
        assert r[i] == t[i - 1];
      }
    }
  }

  /** The input, rearranged in `leq` order. */
  function InsertionSort<T(!new)>(s: seq<T>, leq: (T, T) -> bool): (r: seq<T>)
    ensures |r| == |s|
    ensures multiset(r) == multiset(s)
  {
    if s == [] then []
    else
      assert s == [s[0]] + s[1..];
      Insert(s[0], InsertionSort(s[1..], leq), leq)
  }

  /** Under a total preorder, insertion sort yields a sorted sequence. */
  lemma {:induction false} InsertionSortSorted<T(!new)>(s: seq<T>, leq: (T, T) -> bool)
    requires Total(leq) && Transitive(leq)
    ensures SortedBy(InsertionSort(s, leq), leq)
  {
    if s != [] {
      InsertionSortSorted(s[1..], leq);
      InsertSorted(s[0], InsertionSort(s[1..], leq), leq);
    }
  }

  /** Lexicographic order on strings, comparing characters by their value. */
  predicate StrLeq(a: string, b: string)
    decreases |a|
  {
    |a| == 0 || (|b| > 0 && (a[0] < b[0] || (a[0] == b[0] && StrLeq(a[1..], b[1..]))))
  }

  lemma {:induction false} StrLeqTotal(a: string, b: string)
    ensures StrLeq(a, b) || StrLeq(b, a)
    decreases |a|
  {
    if |a| > 0 && |b| > 0 && a[0] == b[0] {
      StrLeqTotal(a[1..], b[1..]);
    }
  }

  lemma {:induction false} StrLeqTransitive(a: string, b: string, c: string)
    requires StrLeq(a, b) && StrLeq(b, c)
    ensures StrLeq(a, c)
    decreases |a|
  {
    if |a| > 0 && a[0] == b[0] && b[0] == c[0] {
      StrLeqTransitive(a[1..], b[1..], c[1..]);
    }
  }

  lemma {:induction false} StrLeqAntisymmetric(a: string, b: string)
    requires StrLeq(a, b) && StrLeq(b, a)
    ensures a == b
    decreases |a|
  {
    if |a| > 0 {
      StrLeqAntisymmetric(a[1..], b[1..]);
      assert a == [a[0]] + a[1..] && b == [b[0]] + b[1..];
    }
  }

  lemma StrLeqIsTotalPreorder()
    ensures Total((a: string, b: string) => StrLeq(a, b))
    ensures Transitive((a: string, b: string) => StrLeq(a, b))
  {
    forall a: string, b: string ensures StrLeq(a, b) || StrLeq(b, a) {
      StrLeqTotal(a, b);
    }
    forall a: string, b: string, c: string | StrLeq(a, b) && StrLeq(b, c) ensures StrLeq(a, c) {
      StrLeqTransitive(a, b, c);
    }
  }

  /** `Array.from(set).sort()` on distinct strings: strictly increasing, same elements. */
  function SortStrings(s: seq<string>): (r: seq<string>)
    ensures multiset(r) == multiset(s)
    ensures SortedBy(r, (a: string, b: string) => StrLeq(a, b))
    ensures (forall i, j :: 0 <= i < j < |s| ==> s[i] != s[j]) ==>
              forall i, j :: 0 <= i < j < |r| ==> StrLeq(r[i], r[j]) && r[i] != r[j]
  {
    StrLeqIsTotalPreorder();
    var r := InsertionSort(s, (a: string, b: string) => StrLeq(a, b));
    InsertionSortSorted(s, (a: string, b: string) => StrLeq(a, b));
    assert (forall i, j :: 0 <= i < j < |s| ==> s[i] != s[j]) ==>
              forall i, j :: 0 <= i < j < |r| ==> StrLeq(r[i], r[j]) && r[i] != r[j] by {
      if forall i, j :: 0 <= i < j < |s| ==> s[i] != s[j] {
        DistinctMultiset(s, r);
      }
    }
    r
  }

  /** A permutation of a duplicate-free sequence is duplicate-free. */
  lemma DistinctMultiset<T>(s: seq<T>, r: seq<T>)
    requires multiset(r) == multiset(s)
    requires forall i, j :: 0 <= i < j < |s| ==> s[i] != s[j]
    ensures forall i, j :: 0 <= i < j < |r| ==> r[i] != r[j]
  {
    forall x | x in multiset(s) ensures multiset(s)[x] == 1 {
      DistinctCount(s, x);
    }
    forall i, j | 0 <= i < j < |r| ensures r[i] != r[j] {
      TwoPositions(r, i, j);
      assert r[i] in multiset(s);
    }
  }

  lemma TwoPositions<T>(r: seq<T>, i: nat, j: nat)
    requires i < j < |r|
    ensures r[i] == r[j] ==> multiset(r)[r[i]] >= 2
  {
    assert r == r[..i] + [r[i]] + r[i + 1..j] + [r[j]] + r[j + 1..];
  }

  lemma {:induction false} DistinctCount<T>(s: seq<T>, x: T)
    requires forall i, j :: 0 <= i < j < |s| ==> s[i] != s[j]
    requires x in multiset(s)
    ensures multiset(s)[x] == 1
  {
    if s[0] == x {
      assert x !in s[1..];
      assert s == [s[0]] + s[1..];
    } else {
      assert s == [s[0]] + s[1..];
      DistinctCount(s[1..], x);
    }
  }

  function MapSeq<T, U>(s: seq<T>, f: T -> U): (r: seq<U>)
    ensures |r| == |s| && forall k :: 0 <= k < |s| ==> r[k] == f(s[k])
  {
    seq(|s|, k requires 0 <= k < |s| => f(s[k]))
  }

  lemma MapSeqCons<T, U>(s: seq<T>, f: T -> U)
    requires s != []
    ensures MapSeq(s, f) == [f(s[0])] + MapSeq(s[1..], f)
  {
  }

  /** Removing the element at `j` removes one occurrence of it. */
  lemma RemoveAt<T>(t: seq<T>, j: nat)
    requires j < |t|
    ensures multiset(t[..j] + t[j + 1..]) == multiset(t) - multiset{t[j]}
  {
    assert t == t[..j] + [t[j]] + t[j + 1..];
  }

  lemma MapRemoveAt<T, U>(t: seq<T>, j: nat, f: T -> U)
    requires j < |t|
    ensures multiset(MapSeq(t, f)) == multiset(MapSeq(t[..j] + t[j + 1..], f)) + multiset{f(t[j])}
  {
    var mt := MapSeq(t, f);
    assert MapSeq(t[..j] + t[j + 1..], f) == mt[..j] + mt[j + 1..];
    RemoveAt(mt, j);
  }

  /** Mapping two permutations of each other gives permutations of each other. */
  lemma {:induction false} MultisetMap<T, U>(s: seq<T>, t: seq<T>, f: T -> U)
    requires multiset(s) == multiset(t)
    ensures multiset(MapSeq(s, f)) == multiset(MapSeq(t, f))
    decreases |s|
  {
    if s != [] {
      assert s[0] in multiset(t);
      var j :| 0 <= j < |t| && t[j] == s[0];
      PermutationTail(s, t, j);
      MultisetMap(s[1..], t[..j] + t[j + 1..], f);
      MultisetMapStep(s, t, j, f);
    }
  }

  /** Removing the same element from two permutations of each other leaves permutations of each other. */
  lemma PermutationTail<T>(s: seq<T>, t: seq<T>, j: nat)
    requires multiset(s) == multiset(t)
    requires s != [] && j < |t| && t[j] == s[0]
    ensures multiset(s[1..]) == multiset(t[..j] + t[j + 1..])
  {
    RemoveAt(t, j);
    RemoveFirst(s);
  }

  lemma RemoveFirst<T>(s: seq<T>)
    requires s != []
    ensures multiset(s[1..]) == multiset(s) - multiset{s[0]}
  {
    assert s == [s[0]] + s[1..];
  }

  lemma MultisetMapStep<T, U>(s: seq<T>, t: seq<T>, j: nat, f: T -> U)
    requires s != [] && j < |t| && t[j] == s[0]
    requires multiset(MapSeq(s[1..], f)) == multiset(MapSeq(t[..j] + t[j + 1..], f))
    ensures multiset(MapSeq(s, f)) == multiset(MapSeq(t, f))
  {
    MapRemoveAt(t, j, f);
    MapSeqCons(s, f);
  }
}
