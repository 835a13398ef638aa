/**
 * The preferences a list of changed files applies when it opens
 * (src/components/StatusFilesSection.jsx). The settings are read once; a
 * setting is looked up under a key scoped to the list's status mode, then
 * under the key shared by all lists, and the value found is trimmed and
 * lower-cased. The file view preference can switch the list between its tree
 * and list views; the expansion preference bumps the expand-all or the
 * collapse-all signal of the tree.
 *
 * The settings request and the React state setters are not modelled as
 * effects: the response is a parameter, and the state the setters leave is
 * the result.
 */
module StatusFiles {
  import opened Wrappers
  import opened Strings

  /**
   * A settings value: `null`, or the text `toString()` gives for any other
   * value. A key that is absent stands for `undefined`.
   */
  datatype Value = Null | Text(s: string)

  /** The settings response: how many errors it reports, and `data.settings` when present. */
  datatype Response = Response(errors: nat, settings: Option<map<string, Value>>)

  /** The state the preferences can change: the view and the two signal counters. */
  datatype ListState = ListState(view: string, expandSig: int, collapseSig: int)

  const Root: string := "file status/"
  const FileViewKey: string := "file view"
  const ExpansionKey: string := "expansion state"

  /** The scope: `file status/ <mode>/` for a non-empty status mode, else `file status/`. */
  function Scope(statusMode: Option<string>): string {
    if statusMode.Some? && statusMode.value != "" then Root + " " + statusMode.value + "/" else Root
  }

  /** The mode-specific key of setting `k`. */
  function SpecificKey(statusMode: Option<string>, k: string): string {
    Scope(statusMode) + " " + k
  }

  /** The key of setting `k` shared by every status mode. */
  function ParentKey(k: string): string {
    Root + " " + k
  }

  /**
   * Without a status mode the two keys are the same; with one they always
   * differ, and the specific key names the mode.
   */
  lemma KeysSpec(statusMode: Option<string>, k: string)
    ensures SpecificKey(statusMode, k) == ParentKey(k) <==> statusMode.None? || statusMode.value == ""
    ensures statusMode.Some? && statusMode.value != "" ==>
      SpecificKey(statusMode, k) == Root + " " + statusMode.value + "/ " + k
  {
    if statusMode.Some? && statusMode.value != "" {
      assert |SpecificKey(statusMode, k)| > |ParentKey(k)|;
    }
  }

  /** `all[key]`, unless it is `null` or `undefined`, which `??` passes over. */
  function Lookup(all: map<string, Value>, key: string): Option<string> {
    if key in all && all[key].Text? then Some(all[key].s) else None
  }

  /** `.trim().toLowerCase()`. */
  function Normalize(v: string): string {
    ToLower(Trim(v))
  }

  /**
   * The `get` closure: the mode-specific value when it is neither null nor
   * undefined, else the shared one, else the empty string, normalised.
   */
  function Resolve(all: map<string, Value>, statusMode: Option<string>, k: string): (r: string)
    ensures forall i :: 0 <= i < |r| ==> !IsAsciiUpper(r[i])
    ensures r != [] ==> !IsJsSpace(r[0]) && !IsJsSpace(r[|r| - 1])
    ensures Lookup(all, SpecificKey(statusMode, k)).None? && Lookup(all, ParentKey(k)).None? ==> r == ""
  {
    var specific := Lookup(all, SpecificKey(statusMode, k));
    var parent := Lookup(all, ParentKey(k));
    var v := if specific.Some? then specific.value else if parent.Some? then parent.value else "";
    NormalizeSpec(v);
    Normalize(v)
  }

  /** Lower-casing leaves white space as it is. */
  lemma LowerCharSpace(c: char)
    ensures IsJsSpace(LowerChar(c)) <==> IsJsSpace(c)
    ensures !IsAsciiUpper(LowerChar(c))
    ensures LowerChar(LowerChar(c)) == LowerChar(c)
  {
  }

  /** Lower-casing is idempotent. */
  lemma {:induction false} ToLowerToLower(s: string)
    ensures ToLower(ToLower(s)) == ToLower(s)
  {
    if |s| > 0 {
      ToLowerToLower(s[1..]);
      LowerCharSpace(s[0]);
    }
  }

  /**
   * A normalised value has no ASCII capital and no white space at either
   * end, and normalising it again changes nothing.
   */
  lemma NormalizeSpec(v: string)
    ensures var r := Normalize(v);
      (forall k :: 0 <= k < |r| ==> !IsAsciiUpper(r[k])) &&
      (r != [] ==> !IsJsSpace(r[0]) && !IsJsSpace(r[|r| - 1])) &&
      Normalize(r) == r
  {
    var t := Trim(v);
    var r := ToLower(t);
    TrimSpec(v);
    ToLowerSpec(t);
    ToLowerSpec(r);
    forall k | 0 <= k < |r| ensures !IsAsciiUpper(r[k]) {
      LowerCharSpace(t[k]);
    }
    if r != [] {
      LowerCharSpace(t[0]);
      LowerCharSpace(t[|t| - 1]);
    }
    TrimUntouched(r);
    ToLowerToLower(t);
  }

  /**
   * A mode-specific value that is neither null nor undefined decides, even
   * when it is the empty string: whatever the shared key holds is ignored.
   */
  lemma SpecificWins(all: map<string, Value>, statusMode: Option<string>, k: string, other: Value)
    requires Lookup(all, SpecificKey(statusMode, k)).Some?
    requires statusMode.Some? && statusMode.value != ""
    ensures Resolve(all, statusMode, k) == Normalize(all[SpecificKey(statusMode, k)].s)
    ensures Resolve(all[ParentKey(k) := other], statusMode, k) == Resolve(all, statusMode, k)
  {
    KeysSpec(statusMode, k);
  }

  /**
   * A null or absent mode-specific value falls back to the shared one, and
   * with neither the setting resolves to the empty string.
   */
  lemma ParentFallback(all: map<string, Value>, statusMode: Option<string>, k: string)
    requires Lookup(all, SpecificKey(statusMode, k)).None?
    ensures Lookup(all, ParentKey(k)).Some? ==> Resolve(all, statusMode, k) == Normalize(all[ParentKey(k)].s)
    ensures Lookup(all, ParentKey(k)).None? ==> Resolve(all, statusMode, k) == ""
  {
  }

  /**
   * The preferences effect: nothing happens when preferences are off, when
   * the response reports errors or when the list went away (`cancelled`);
   * otherwise a `tree` or `list` view preference becomes the view,
   * `expanded` bumps the expand signal and `collapsed` the collapse signal.
   */
  function ApplyPreferences(
    state: ListState, usePreferences: bool, statusMode: Option<string>,
    response: Response, cancelled: bool): (r: ListState)
    ensures !Applies(usePreferences, response, cancelled) ==> r == state
    ensures r.view == state.view || r.view in {"tree", "list"}
    ensures !(r.expandSig != state.expandSig && r.collapseSig != state.collapseSig)
  {
    if !usePreferences || response.errors > 0 || cancelled then state
    else
      var all := if response.settings.Some? then response.settings.value else map[];
      var prefView := Resolve(all, statusMode, FileViewKey);
      var prefExpand := Resolve(all, statusMode, ExpansionKey);
      ListState(
        if prefView == "tree" || prefView == "list" then prefView else state.view,
        if prefExpand == "expanded" then state.expandSig + 1 else state.expandSig,
        if prefExpand == "collapsed" then state.collapseSig + 1 else state.collapseSig)
  }

  /** Whether the preferences are read and applied at all. */
  predicate Applies(usePreferences: bool, response: Response, cancelled: bool) {
    usePreferences && response.errors == 0 && !cancelled
  }

  /**
   * What applying the preferences can do: the view changes only to `tree` or
   * `list`, and exactly when the view preference says one of them; each
   * signal goes up by one exactly when the expansion preference names it;
   * the two signals never both move; with preferences off, errors or a
   * cancelled request nothing changes.
   */
  lemma ApplyPreferencesSpec(
    state: ListState, usePreferences: bool, statusMode: Option<string>,
    response: Response, cancelled: bool)
    ensures var next := ApplyPreferences(state, usePreferences, statusMode, response, cancelled);
      var all := if response.settings.Some? then response.settings.value else map[];
      var applies := Applies(usePreferences, response, cancelled);
      (!applies ==> next == state) &&
      (next.view == state.view || next.view in {"tree", "list"}) &&
      (applies && Resolve(all, statusMode, FileViewKey) in {"tree", "list"} ==>
        next.view == Resolve(all, statusMode, FileViewKey)) &&
      (applies && Resolve(all, statusMode, FileViewKey) !in {"tree", "list"} ==> next.view == state.view) &&
      (next.expandSig == state.expandSig + 1 <==>
        applies && Resolve(all, statusMode, ExpansionKey) == "expanded") &&
      (next.expandSig != state.expandSig + 1 ==> next.expandSig == state.expandSig) &&
      (next.collapseSig == state.collapseSig + 1 <==>
        applies && Resolve(all, statusMode, ExpansionKey) == "collapsed") &&
      (next.collapseSig != state.collapseSig + 1 ==> next.collapseSig == state.collapseSig) &&
      !(next.expandSig != state.expandSig && next.collapseSig != state.collapseSig)
  {
  }
}
