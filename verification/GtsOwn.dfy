/** Whether the rewriting pass knows which lines come from the source itself, and what becomes of the exports when
    it does not. */
module GtsOwn {
  import opened CText
  import opened GtsWorld
  import opened GtsZap

  /** Whether lines count as the source's own after the first k directives. */
  function Own(name: string, start: bool, ds: seq<Directive>, k: nat): bool
    requires k <= |ds|
  {
    if k == 0 then start
    else if ds[k - 1].File? then ds[k - 1].name == (if Own(name, start, ds, k - 1) then name else NOT_LOCAL)
    else Own(name, start, ds, k - 1)
  }

  lemma {:induction false} OwnRun(env: Env, st: Pass, ds: seq<Directive>, k: nat)
    requires k <= |ds|
    ensures LinesRun(env, st, ds, k).own == Own(env.name, st.own, ds, k)
  {
    if k > 0 {
      OwnRun(env, st, ds, k - 1);
    }
  }

  predicate NamesPlaceholder(d: Directive) {
    d.File? && d.name == "non local file"
  }

  /** Once another file has been named, no line counts as the source's own until a directive names the
      placeholder; behind the first one that does, lines count again. */
  lemma {:induction false} NeverOwnAgain(name: string, ds: seq<Directive>, k: nat)
    requires k <= |ds| && forall x | 0 <= x < k :: !NamesPlaceholder(ds[x])
    ensures !Own(name, false, ds, k)
    ensures k < |ds| ==> Own(name, false, ds, k + 1) == NamesPlaceholder(ds[k])
  {
    if k > 0 {
      NeverOwnAgain(name, ds, k - 1);
    }
  }

  // --- When the pass follows the directives ------------------------------------------------------

  /** The last of the first k directives that names a file names the source, or there is none. */
  predicate LastOwn(name: string, ds: seq<Directive>, k: nat)
    requires k <= |ds|
  {
    k == 0 || (if ds[k - 1].File? then ds[k - 1].name == name else LastOwn(name, ds, k - 1))
  }

  /** After a directive that names another file there is none that names the source, or the placeholder. */
  ghost predicate NoReturn(name: string, ds: seq<Directive>, k: nat)
    requires k <= |ds|
  {
    forall x, y | 0 <= x < y < k && ds[x].File? && ds[x].name != name && ds[y].File? ::
      ds[y].name != name && ds[y].name != NOT_LOCAL
  }

  ghost predicate Foreign(name: string, ds: seq<Directive>, k: nat)
    requires k <= |ds|
  {
    exists x :: 0 <= x < k && ds[x].File? && ds[x].name != name
  }

  ghost predicate Follows(name: string, ds: seq<Directive>, k: nat)
    requires k <= |ds|
  {
    forall j: nat | j <= k :: Own(name, true, ds, j) == LastOwn(name, ds, j)
  }

  lemma {:induction false} FollowsWithoutReturn(name: string, ds: seq<Directive>, k: nat)
    requires k <= |ds| && NoReturn(name, ds, k)
    ensures Own(name, true, ds, k) == LastOwn(name, ds, k) == !Foreign(name, ds, k)
  {
    if k > 0 {
      FollowsWithoutReturn(name, ds, k - 1);
    }
  }

  lemma {:induction false} FollowsItsName(ds: seq<Directive>, k: nat)
    requires k <= |ds|
    ensures Own(NOT_LOCAL, true, ds, k) == LastOwn(NOT_LOCAL, ds, k)
  {
    if k > 0 {
      FollowsItsName(ds, k - 1);
    }
  }

  lemma {:induction false} StaysForeign(name: string, ds: seq<Directive>, a: nat, b: nat)
    requires a <= b <= |ds| && name != NOT_LOCAL && Follows(name, ds, b)
    requires !Own(name, true, ds, a)
    ensures !Own(name, true, ds, b)
  {
    if a < b {
      StaysForeign(name, ds, a, b - 1);
      assert Own(name, true, ds, b) == LastOwn(name, ds, b);
    }
  }

  /** A return to the source, or to the placeholder, is missed there if none was missed before. */
  lemma ReturnIsMissed(name: string, ds: seq<Directive>, x: nat, y: nat)
    requires x < y < |ds| && name != NOT_LOCAL && Follows(name, ds, y)
    requires ds[x].File? && ds[x].name != name && ds[y].File?
    requires ds[y].name == name || ds[y].name == NOT_LOCAL
    ensures Own(name, true, ds, y + 1) != LastOwn(name, ds, y + 1)
  {
    assert Own(name, true, ds, x + 1) == LastOwn(name, ds, x + 1);
    StaysForeign(name, ds, x + 1, y);
  }

  /** The pass knows at every line whether it is in the source itself if and only if no directive returns from
      another file to the source, or to the placeholder; or the source is called like the placeholder. */
  lemma OwnFollowsDirectives(env: Env, st: Pass, ds: seq<Directive>, k: nat)
    requires k <= |ds| && st.own
    ensures (forall j: nat | j <= k :: LinesRun(env, st, ds, j).own == LastOwn(env.name, ds, j))
            <==> env.name == NOT_LOCAL || NoReturn(env.name, ds, k)
  {
    hide LinesRun, LastOwn, Own;
    forall j: nat | j <= k ensures LinesRun(env, st, ds, j).own == Own(env.name, true, ds, j) {
      OwnRun(env, st, ds, j);
    }
    FollowsExactly(env.name, ds, k);
    if !Follows(env.name, ds, k) {
      var j: nat :| j <= k && Own(env.name, true, ds, j) != LastOwn(env.name, ds, j);
      assert LinesRun(env, st, ds, j).own != LastOwn(env.name, ds, j);
    }
  }

  lemma FollowsExactly(name: string, ds: seq<Directive>, k: nat)
    requires k <= |ds|
    ensures Follows(name, ds, k) <==> name == NOT_LOCAL || NoReturn(name, ds, k)
  {
    if name == NOT_LOCAL || NoReturn(name, ds, k) {
      forall j: nat | j <= k ensures Own(name, true, ds, j) == LastOwn(name, ds, j) {
        if name == NOT_LOCAL {
          FollowsItsName(ds, j);
        } else {
          FollowsWithoutReturn(name, ds, j);
        }
      }
    } else {
      var x, y :| 0 <= x < y < k && ds[x].File? && ds[x].name != name && ds[y].File?
                  && (ds[y].name == name || ds[y].name == NOT_LOCAL);
      if Follows(name, ds, y) {
        ReturnIsMissed(name, ds, x, y);
      }
    }
  }

  // --- What becomes of the exports ---------------------------------------------------------------

  lemma JoinKeepsInline(src: nat, w: World, cur: nat, name: string, other: string)
    requires IsInline(w, other) && name != other
    ensures IsInline(Join(src, w, cur, name).0, other)
  {
    var v := Join(src, w, cur, name).0;
    if Find(w.syms, name) >= 0 {
      FindSameNames(w.syms, v.syms, other);
    } else {
      FindAfterInsert(w.syms, NewSym(name, Some(cur), Defined), other);
    }
  }

  lemma MakeInlineKeepsInline(w: World, name: string, other: string)
    requires IsInline(w, other)
    ensures IsInline(MakeInline(w, name), other)
  {
    var v := MakeInline(w, name);
    if Find(w.syms, name) >= 0 {
      FindSameNames(w.syms, v.syms, other);
    } else {
      FindAfterInsert(w.syms, NewSym(name, None, Inline), other);
    }
  }

  /** A symbol that is inline stays inline to the end of the file. */
  lemma {:induction false} InlineForGood(env: Env, st: Pass, ds: seq<Directive>, j: nat, k: nat, name: string)
    requires j <= k <= |ds| && IsInline(LinesRun(env, st, ds, j).w, name)
    ensures IsInline(LinesRun(env, st, ds, k).w, name)
    decreases k
  {
    if j < k {
      InlineForGood(env, st, ds, j, k - 1, name);
      var before, d := LinesRun(env, st, ds, k - 1), ds[k - 1];
      if d.Global? && TreatInline(env, before, d.name) {
        MakeInlineKeepsInline(before.w, d.name, name);
      } else if d.Global? {
        JoinKeepsInline(env.src, before.w, before.cur, d.name, name);
      }
    }
  }

  lemma {:induction false} NotOwnBetween(name: string, start: bool, ds: seq<Directive>, a: nat, x: nat)
    requires a < x <= |ds| && ds[a].File? && ds[a].name != name && ds[a].name != NOT_LOCAL
    requires forall y | a < y < x :: !NamesPlaceholder(ds[y])
    ensures !Own(name, start, ds, x)
  {
    if a < x - 1 {
      NotOwnBetween(name, start, ds, a, x - 1);
    }
  }

  /** So in C++ every export behind the name of another file is commented out and its symbol ends up inline, even
      when a directive in between has returned to the source. */
  lemma LaterExportsVanish(env: Env, st: Pass, lines: seq<string>, ds: seq<Directive>, a: nat, x: nat)
    requires env.cplusplus && env.output && |lines| == |ds| && a < x < |ds| && ds[x].Global?
    requires ds[a].File? && ds[a].name != env.name && ds[a].name != NOT_LOCAL
    requires forall y | a < y < x :: !NamesPlaceholder(ds[y])
    ensures LinesOut(env, st, lines, ds, |ds|)[x] == " # gts" + lines[x]
    ensures IsInline(LinesRun(env, st, ds, |ds|).w, ds[x].name)
  {
    NotOwnBetween(env.name, st.own, ds, a, x);
    OwnRun(env, st, ds, x);
    var before := LinesRun(env, st, ds, x);
    MakeInlineInline(before.w, ds[x].name);
    assert LinesRun(env, st, ds, x + 1) == LineStep(env, before, ds[x]);
    InlineForGood(env, st, ds, x + 1, |ds|, ds[x].name);
    LinesText(env, st, lines, ds, |ds|);
    assert InlineAfter(env, before, ds[x]);
  }

  /** For instance a header and then the source again: the source's next export is taken for the header's. */
  lemma ReturnFromHeaderIsMissed(env: Env, st: Pass, lines: seq<string>)
    requires env.name == "a.cpp" && env.output && env.cplusplus && st.own
    requires lines == ["\t.file\t1 \"b.h\"", "\t.file\t2 \"a.cpp\"", "\t.globl\tf"]
    ensures var ds := Directives(true, lines);
            && LastOwn("a.cpp", ds, 2) && !LinesRun(env, st, ds, 2).own
            && LinesOut(env, st, lines, ds, 3)[2] == " # gts" + lines[2]
            && IsInline(LinesRun(env, st, ds, 3).w, "f")
  {
    hide LinesRun, LinesOut, DirectiveOf;
    var ds := Directives(true, lines);
    FileExactly(true, lines[0], "b.h");
    FileExactly(true, lines[1], "a.cpp");
    GlobalExactly(true, lines[2], "f");
    assert Quoted(lines[0][6..], "\t1 ", "b.h", "") && Quoted(lines[1][6..], "\t2 ", "a.cpp", "");
    NotOwnBetween("a.cpp", true, ds, 0, 2);
    OwnRun(env, st, ds, 2);
    LaterExportsVanish(env, st, lines, ds, 0, 2);
  }
}
