/** What rebuilding an object does to the state: its source's assembler is read again, in the course of which the
    objects of the symbols it exports become one, and the source is told how long that took. */
module GtsRebuild {
  import opened CText
  import opened GtsWorld
  import Zap = GtsZap
  import Schedule = GtsSchedule

  /** How a rebuild went; lines is the assembler that the compiler made of the source. */
  datatype Build =
    | NotCompiled                                    // a step before the assembler is read failed
    | Broken(lines: seq<string>)                     // a step after that failed
    | Reverted(lines: seq<string>)                   // the rewritten text did not assemble, the source did
    | Built(lines: seq<string>, time: int)
    | NotArchived(lines: seq<string>, time: int)     // the object was built but a last step failed

  /** suffix_name: from the last dot on. */
  function Suffix(s: string): string {
    if s == "" then "" else if Suffix(s[1..]) != "" then Suffix(s[1..]) else if s[0] == '.' then s else ""
  }

  lemma {:induction false} NoDot(s: string)
    requires '.' !in s
    ensures Suffix(s) == ""
  {
    if s != "" {
      NoDot(s[1..]);
    }
  }

  lemma {:induction false} LastDot(s: string, n: nat)
    requires n < |s| && s[n] == '.' && '.' !in s[n + 1..]
    ensures Suffix(s) == s[n..]
  {
    if n == 0 {
      NoDot(s[1..]);
    } else {
      assert s[1..][n - 1..] == s[n..] && s[1..][n..] == s[n + 1..];
      LastDot(s[1..], n - 1);
    }
  }

  lemma {:induction false} SuffixParts(s: string)
    ensures Suffix(s) == "" || (|Suffix(s)| <= |s| && Suffix(s) == s[|s| - |Suffix(s)|..])
  {
    if s != "" {
      SuffixParts(s[1..]);
    }
  }

  /** Exactly the names that end in ".cpp" are C++. */
  lemma CppExactly(name: string)
    ensures Suffix(name) == ".cpp" <==> |name| >= 4 && name[|name| - 4..] == ".cpp"
  {
    hide Suffix;
    SuffixParts(name);
    if |name| >= 4 && name[|name| - 4..] == ".cpp" {
      var n := |name| - 4;
      assert name[n] == name[n..][0] == '.' && name[n + 1..] == name[n..][1..] == "cpp";
      LastDot(name, n);
    }
  }

  function EnvOf(w: World, src: nat): Zap.Env {
    var name := if src < |w.srcs| then w.srcs[src].name else "";
    Zap.Env(src, name, true, Suffix(name) == ".cpp")
  }

  ghost function Reread(w: World, src: nat, lines: seq<string>, irix: bool): Zap.Pass {
    Zap.LinesRun(EnvOf(w, src), Zap.Start(w, src), Zap.Directives(irix, lines), |lines|)
  }

  datatype Outcome = Outcome(w: World, rv: int)

  /** EhObjectRebuild: the state it leaves and what it reports. */
  ghost function RebuildOne(w: World, o: nat, b: Build, irix: bool): (r: Outcome)
    ensures r.rv >= -1
  {
    match ObjAt(w, o).source
    case None => Outcome(w, -1)
    case Some(src) =>
      match b
      case NotCompiled => Outcome(w, -1)
      case Broken(lines) => Outcome(Reread(w, src, lines, irix).w, -1)
      case Reverted(lines) => Outcome(Reread(w, src, lines, irix).w, 0)
      case Built(lines, time) =>
        Outcome(SetTime(Reread(w, src, lines, irix).w, src, time), Reread(w, src, lines, irix).nzap)
      case NotArchived(lines, time) => Outcome(SetTime(Reread(w, src, lines, irix).w, src, time), -1)
  }

  ghost function TakeOff(w: World, o: nat): World {
    PutObj(w, o, ObjAt(w, o).(recompile := None))
  }

  /** One round of the loop: an object that was rebuilt is taken off the list. */
  ghost function Round(w: World, o: nat, b: Build, irix: bool): World {
    var r := RebuildOne(w, o, b, irix);
    if r.rv == -1 then r.w else TakeOff(r.w, o)
  }

  /** The state after the first k objects were rebuilt and taken off the list. */
  ghost function RebuildAll(w: World, ids: seq<nat>, builds: nat -> Build, irix: bool, k: nat): World
    requires k <= |ids|
  {
    if k == 0 then w
    else
      var before, o := RebuildAll(w, ids, builds, irix, k - 1), ids[k - 1];
      TakeOff(RebuildOne(before, o, builds(o), irix).w, o)
  }

  /** What each rebuild reports when its turn comes. */
  ghost function Reports(w: World, ids: seq<nat>, builds: nat -> Build, irix: bool): (r: seq<int>)
    ensures |r| == |ids|
    ensures forall k | 0 <= k < |ids| ::
              r[k] == RebuildOne(RebuildAll(w, ids, builds, irix, k), ids[k], builds(ids[k]), irix).rv && r[k] >= -1
  {
    seq(|ids|, k requires 0 <= k < |ids| =>
      RebuildOne(RebuildAll(w, ids, builds, irix, k), ids[k], builds(ids[k]), irix).rv)
  }

  lemma RebuildNone(w: World, ids: seq<nat>, builds: nat -> Build, irix: bool)
    ensures RebuildAll(w, ids, builds, irix, 0) == w
  {
  }

  lemma RebuildNext(w: World, ids: seq<nat>, builds: nat -> Build, irix: bool, k: nat)
    requires k < |ids|
    ensures var r := RebuildOne(RebuildAll(w, ids, builds, irix, k), ids[k], builds(ids[k]), irix);
            && Reports(w, ids, builds, irix)[k] == r.rv
            && RebuildAll(w, ids, builds, irix, k + 1) == TakeOff(r.w, ids[k])
  {
  }

  /** What the rebuild loop reports, and the state it leaves: done objects were rebuilt and taken off the list,
      and one more was tried if it failed. */
  ghost predicate RebuiltFrom(w: World, ids: seq<nat>, delta: nat, builds: nat -> Build, irix: bool,
                              rv: int, done: nat, end: World)
  {
    var results := Reports(w, ids, builds, irix);
    if rv >= 0 then
      done == rv && Schedule.Finished(results, delta, done) && end == RebuildAll(w, ids, builds, irix, done)
    else
      && rv == -1 && Schedule.FailsAt(results, delta, done)
      && end == RebuildOne(RebuildAll(w, ids, builds, irix, done), ids[done], builds(ids[done]), irix).w
  }
}
