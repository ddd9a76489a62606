/** The order in which objects are rebuilt, and how many of them. */
module GtsSchedule {
  import opened CText

  /** What the comparison looks at: how many symbols an object must get back, and its source. */
  datatype Job = Job(needsUnzap: nat, source: Option<JobSource>)

  /** A source record; records at the same address are the same record. */
  datatype JobSource = JobSource(addr: nat, directory: Option<string>, name: string)

  const NO_MATCH: nat := 0xFFFF_FFFF   // (unsigned)-1

  /** match_prefs: the first preference the candidate starts with. */
  function MatchPrefs(candidate: string, prefs: seq<string>, n: nat): nat
    decreases |prefs| - n
  {
    if n >= |prefs| then NO_MATCH
    else if prefs[n] <= candidate then n
    else MatchPrefs(candidate, prefs, n + 1)
  }

  /** The sign a preference list gives two directories, smaller matches first; 0 when it does not decide. */
  function ComparePrefs(a: JobSource, b: JobSource, prefs: Option<seq<string>>): int {
    if prefs.None? || a.directory.None? || b.directory.None? then 0
    else
      var ma, mb := MatchPrefs(a.directory.value, prefs.value, 0), MatchPrefs(b.directory.value, prefs.value, 0);
      if ma < mb then -1 else if ma > mb then 1 else 0
  }

  /** recompile_compare */
  function Compare(a: Job, b: Job, prefs: Option<seq<string>>, unprefs: Option<seq<string>>): int {
    if a.needsUnzap == 0 && b.needsUnzap != 0 then -1
    else if a.needsUnzap != 0 && b.needsUnzap == 0 then 1
    else if a.source.None? && b.source.Some? then 1
    else if a.source.Some? && b.source.None? then -1
    else if a.source.None? || a.source.value.addr == b.source.value.addr then 0
    else
      var x, y := a.source.value, b.source.value;
      if ComparePrefs(x, y, unprefs) != 0 then -ComparePrefs(x, y, unprefs)
      else if ComparePrefs(x, y, prefs) != 0 then ComparePrefs(x, y, prefs)
      else Sign(StrCmp(x.name, y.name))
  }

  // --- The order ---------------------------------------------------------------------------------

  /** Needs-unzap, then the unpreferred match counted backwards, then the preferred match, then the name. */
  datatype Key = Key(unzap: int, unpref: int, pref: int, name: string)

  ghost function KeyOf(j: Job, prefs: Option<seq<string>>, unprefs: Option<seq<string>>): Key
    requires j.source.Some? && j.source.value.directory.Some?
  {
    var d := j.source.value.directory.value;
    Key(if j.needsUnzap == 0 then 0 else 1,
        if unprefs.None? then 0 else -(MatchPrefs(d, unprefs.value, 0) as int),
        if prefs.None? then 0 else MatchPrefs(d, prefs.value, 0),
        j.source.value.name)
  }

  ghost function Lexicographic(a: Key, b: Key): int {
    if a.unzap != b.unzap then Sign(a.unzap - b.unzap)
    else if a.unpref != b.unpref then Sign(a.unpref - b.unpref)
    else if a.pref != b.pref then Sign(a.pref - b.pref)
    else if a.name == b.name then 0
    else if Before(a.name, b.name) then -1
    else 1
  }

  ghost predicate Placed(j: Job) {
    j.source.Some? && j.source.value.directory.Some?
  }

  ghost predicate SameRecord(a: Job, b: Job) {
    a.source.Some? && b.source.Some? && a.source.value.addr == b.source.value.addr ==> a.source == b.source
  }

  /** When both sources have a directory the comparison is the lexicographic order of the keys. */
  lemma CompareIsLexicographic(a: Job, b: Job, prefs: Option<seq<string>>, unprefs: Option<seq<string>>)
    requires Placed(a) && Placed(b) && SameRecord(a, b)
    ensures Compare(a, b, prefs, unprefs) == Lexicographic(KeyOf(a, prefs, unprefs), KeyOf(b, prefs, unprefs))
  {
    NameSign(a.source.value.name, b.source.value.name);
  }

  lemma NameSign(a: string, b: string)
    ensures Sign(StrCmp(a, b)) == if a == b then 0 else if Before(a, b) then -1 else 1
  {
    StrCmpEqual(a, b);
    StrCmpIsDictionary(a, b);
  }

  lemma LexicographicOrder(a: Key, b: Key, c: Key)
    ensures Lexicographic(a, a) == 0
    ensures Lexicographic(a, b) == -Lexicographic(b, a)
    ensures Lexicographic(a, b) <= 0 && Lexicographic(b, c) <= 0 ==> Lexicographic(a, c) <= 0
  {
    hide StrCmp, Before;
    NameSign(a.name, b.name);
    NameSign(b.name, a.name);
    NameSign(b.name, c.name);
    NameSign(a.name, c.name);
    StrCmpSwap(a.name, b.name);
    if StrCmp(a.name, b.name) <= 0 && StrCmp(b.name, c.name) <= 0 {
      StrCmpTransitive(a.name, b.name, c.name);
    }
  }

  /** So it is a consistent total preorder there. */
  lemma CompareIsPreorder(a: Job, b: Job, c: Job, prefs: Option<seq<string>>, unprefs: Option<seq<string>>)
    requires Placed(a) && Placed(b) && Placed(c)
    requires SameRecord(a, b) && SameRecord(b, c) && SameRecord(a, c)
    ensures Compare(a, a, prefs, unprefs) == 0
    ensures Compare(a, b, prefs, unprefs) == -Compare(b, a, prefs, unprefs)
    ensures Compare(a, b, prefs, unprefs) <= 0 && Compare(b, c, prefs, unprefs) <= 0
            ==> Compare(a, c, prefs, unprefs) <= 0
  {
    CompareIsLexicographic(a, b, prefs, unprefs);
    CompareIsLexicographic(b, a, prefs, unprefs);
    CompareIsLexicographic(b, c, prefs, unprefs);
    CompareIsLexicographic(a, c, prefs, unprefs);
    LexicographicOrder(KeyOf(a, prefs, unprefs), KeyOf(b, prefs, unprefs), KeyOf(c, prefs, unprefs));
  }

  lemma CompareSwap(a: Job, b: Job, prefs: Option<seq<string>>, unprefs: Option<seq<string>>)
    requires SameRecord(a, b)
    ensures Compare(a, b, prefs, unprefs) == -Compare(b, a, prefs, unprefs)
  {
    if a.source.Some? && b.source.Some? {
      StrCmpSwap(a.source.value.name, b.source.value.name);
    }
  }

  /** A preference list that treats all directories alike. */
  predicate Inert(prefs: Option<seq<string>>) {
    prefs.None? || prefs.value == [] || prefs.value[0] == ""
  }

  lemma MatchBounds(candidate: string, prefs: seq<string>, n: nat)
    ensures n < |prefs| && !(prefs[n] <= candidate) ==> MatchPrefs(candidate, prefs, n) > n || n >= NO_MATCH
    ensures MatchPrefs(candidate, prefs, n) >= n || MatchPrefs(candidate, prefs, n) == NO_MATCH
    decreases |prefs| - n
  {
    if n < |prefs| {
      MatchBounds(candidate, prefs, n + 1);
    }
  }

  /** The match is the first preference that the candidate starts with, if there is one. */
  lemma {:induction false} MatchIsFirst(candidate: string, prefs: seq<string>, n: nat)
    requires n <= |prefs| < 0xFFFF_FFFF
    ensures var m := MatchPrefs(candidate, prefs, n);
            && (m == 0xFFFF_FFFF || (n <= m < |prefs| && prefs[m] <= candidate))
            && forall j | n <= j < |prefs| && j < m :: !(prefs[j] <= candidate)
    decreases |prefs| - n
  {
    if n < |prefs| && !(prefs[n] <= candidate) {
      MatchIsFirst(candidate, prefs, n + 1);
    }
  }

  ghost predicate Transitive(a: Job, b: Job, c: Job, prefs: Option<seq<string>>, unprefs: Option<seq<string>>) {
    Compare(a, b, prefs, unprefs) <= 0 && Compare(b, c, prefs, unprefs) <= 0
    ==> Compare(a, c, prefs, unprefs) <= 0
  }

  ghost predicate Recorded(a: Job, b: Job, c: Job) {
    && a.source.Some? && b.source.Some? && c.source.Some?
    && SameRecord(a, b) && SameRecord(b, c) && SameRecord(a, c)
  }

  /** A source without a directory between two that a list tells apart breaks the order. */
  lemma DirectorylessBreaksOrder(prefs: Option<seq<string>>, unprefs: Option<seq<string>>)
    returns (a: Job, b: Job, c: Job)
    requires !Inert(prefs) || !Inert(unprefs)
    ensures Recorded(a, b, c) && !Transitive(a, b, c, prefs, unprefs)
  {
    b := Job(0, Some(JobSource(2, None, "b")));
    if !Inert(unprefs) {
      MatchBounds("", unprefs.value, 0);
      a := Job(0, Some(JobSource(1, Some(unprefs.value[0]), "a")));
      c := Job(0, Some(JobSource(3, Some(""), "c")));
    } else {
      MatchBounds("", prefs.value, 0);
      a := Job(0, Some(JobSource(1, Some(""), "a")));
      c := Job(0, Some(JobSource(3, Some(prefs.value[0]), "c")));
    }
  }

  lemma InertIsTransitive(a: Job, b: Job, c: Job, prefs: Option<seq<string>>, unprefs: Option<seq<string>>)
    requires Inert(prefs) && Inert(unprefs) && Recorded(a, b, c)
    ensures Transitive(a, b, c, prefs, unprefs)
  {
    var x, y, z := a.source.value, b.source.value, c.source.value;
    StrCmpEqual(x.name, y.name);
    StrCmpEqual(y.name, z.name);
    StrCmpEqual(x.name, z.name);
    if StrCmp(x.name, y.name) <= 0 && StrCmp(y.name, z.name) <= 0 {
      StrCmpTransitive(x.name, y.name, z.name);
    }
  }

  /** Over sources that may lack a directory the comparison is an order exactly when neither list can tell
      two directories apart. */
  lemma OrderWithoutDirectories(prefs: Option<seq<string>>, unprefs: Option<seq<string>>)
    ensures (forall a, b, c | Recorded(a, b, c) :: Transitive(a, b, c, prefs, unprefs))
            <==> Inert(prefs) && Inert(unprefs)
  {
    if Inert(prefs) && Inert(unprefs) {
      forall a, b, c | Recorded(a, b, c) ensures Transitive(a, b, c, prefs, unprefs) {
        InertIsTransitive(a, b, c, prefs, unprefs);
      }
    } else {
      var a, b, c := DirectorylessBreaksOrder(prefs, unprefs);
    }
  }

  // --- How many are rebuilt ----------------------------------------------------------------------

  /** The zaps that the first n rebuilds report. */
  function Zaps(results: seq<int>, n: nat): int
    requires n <= |results|
  {
    if n == 0 then 0 else Zaps(results, n - 1) + results[n - 1]
  }

  /** n is the shortest prefix whose zaps reach delta, or everything. */
  ghost predicate Shortest(results: seq<int>, delta: nat, n: nat) {
    && n <= |results|
    && (n == |results| || Zaps(results, n) >= delta)
    && forall m {:trigger Zaps(results, m)} | 0 <= m < n :: Zaps(results, m) < delta
  }

  /** Rebuild n fails before the goal is reached; none failed earlier. */
  ghost predicate FailsAt(results: seq<int>, delta: nat, n: nat) {
    && n < |results| && results[n] == -1 && Zaps(results, n) < delta
    && forall m | 0 <= m < n :: results[m] != -1
  }

  /** The first n rebuilds were enough, or all there were, and none failed. */
  ghost predicate Finished(results: seq<int>, delta: nat, n: nat) {
    Shortest(results, delta, n) && forall m | 0 <= m < n :: results[m] != -1
  }

  /** The loop has come to rebuild n: none failed, and the goal was not reached before. */
  ghost predicate SoFar(results: seq<int>, delta: nat, n: nat, nzaps: int) {
    && n <= |results| && nzaps == Zaps(results, n) >= 0
    && (forall m {:trigger Zaps(results, m)} | 0 <= m < n :: Zaps(results, m) < delta)
    && forall m | 0 <= m < n :: results[m] != -1
  }

  lemma LoopStarts(results: seq<int>, delta: nat)
    ensures SoFar(results, delta, 0, 0)
  {
  }

  lemma LoopGoesOn(results: seq<int>, delta: nat, n: nat, nzaps: int)
    requires SoFar(results, delta, n, nzaps) && n < |results| && nzaps < delta && results[n] >= -1
    ensures if results[n] == -1 then FailsAt(results, delta, n) else SoFar(results, delta, n + 1, nzaps + results[n])
  {
  }

  lemma LoopEnds(results: seq<int>, delta: nat, n: nat, nzaps: int)
    requires SoFar(results, delta, n, nzaps) && (n == |results| || nzaps >= delta)
    ensures Finished(results, delta, n)
  {
  }

  lemma {:induction false} ZapsGrow(results: seq<int>, n: nat, m: nat)
    requires n <= m <= |results| && forall k | n <= k < m :: results[k] >= 0
    ensures Zaps(results, n) <= Zaps(results, m)
  {
    if n < m {
      ZapsGrow(results, n, m - 1);
    }
  }

  /** What the loop does is determined by the results: there is one shortest prefix or one first failure, never
      both. */
  lemma OneOutcome(results: seq<int>, delta: nat, n: nat, m: nat)
    requires forall k | 0 <= k < |results| :: results[k] >= -1
    requires Finished(results, delta, n)
    ensures Finished(results, delta, m) ==> m == n
    ensures !FailsAt(results, delta, m)
  {
    if n <= m < |results| && forall k | 0 <= k < m :: results[k] != -1 {
      ZapsGrow(results, n, m);
    }
  }
}
