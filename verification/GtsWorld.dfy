/** The state the global-to-static driver keeps, as a value: symbols in the order they were inserted,
    objects and sources in the order they were allocated. A pointer is a position in those lists,
    a NULL pointer is None. The classes in GtsTable.dfy hold the same state in the heap. */
module GtsWorld {
  import opened CText

  datatype SymState = Undefined | Defined | Zapped | Inline

  datatype Sym = Sym(name: string, obj: Option<nat>, ngusers: nat, nlusers: nat, state: SymState)

  /** An object without a name is one whose name is the sentinel eh_unnamed_object. */
  datatype Object = Object(name: Option<string>, source: Option<nat>, recompile: Option<nat>,
                           needsUnzap: nat, nusers: nat)

  datatype Source = Source(name: string, directory: Option<string>, ccArgs: seq<string>,
                           savefile: Option<string>, compileTime: int, target: Option<string>)

  datatype World = World(syms: seq<Sym>, objs: seq<Object>, srcs: seq<Source>)

  const EMPTY_WORLD := World([], [], [])

  /** Every pointer leads to an allocated record. */
  ghost predicate Wf(w: World) {
    && (forall i | 0 <= i < |w.syms| :: w.syms[i].obj.Some? ==> w.syms[i].obj.value < |w.objs|)
    && (forall o | 0 <= o < |w.objs| :: w.objs[o].source.Some? ==> w.objs[o].source.value < |w.srcs|)
    && (forall o | 0 <= o < |w.objs| :: w.objs[o].recompile.Some? ==> w.objs[o].recompile.value < |w.objs|)
  }

  ghost predicate UniqueNames(w: World) {
    forall i, j | 0 <= i < j < |w.syms| :: w.syms[i].name != w.syms[j].name
  }

  predicate IsDefined(s: Sym) { s.obj.Some? && s.state == Defined }

  predicate IsZapped(s: Sym) { s.obj.Some? && s.state == Zapped }

  predicate CanBuild(o: Object) { o.source.Some? && o.name.Some? }

  /** Looking a name up in one list that holds the latest insert first. */
  function Find(syms: seq<Sym>, name: string): (r: int)
    ensures -1 <= r < |syms|
    ensures r >= 0 ==> syms[r].name == name
    ensures forall i | r < i < |syms| :: syms[i].name != name
  {
    if syms == [] then -1
    else if syms[|syms| - 1].name == name then |syms| - 1
    else Find(syms[..|syms| - 1], name)
  }

  /** Where a symbol of that name is, or will be once inserted. */
  function Slot(w: World, name: string): nat {
    if Find(w.syms, name) >= 0 then Find(w.syms, name) else |w.syms|
  }

  /** A fresh object, before anything points at it. */
  function NewObject(name: Option<string>, source: Option<nat>): Object {
    Object(name, source, None, 0, 0)
  }

  function NewSym(name: string, obj: Option<nat>, state: SymState): Sym {
    Sym(name, obj, 0, 0, state)
  }

  function Insert(w: World, s: Sym): World {
    w.(syms := w.syms + [s])
  }

  // Following a pointer. A well-formed state has no dangling pointer; the defaults below only make
  // these functions total.

  function SymAt(w: World, i: nat): Sym {
    if i < |w.syms| then w.syms[i] else NewSym("", None, Undefined)
  }

  predicate IsInline(w: World, name: string) {
    Find(w.syms, name) >= 0 && SymAt(w, Find(w.syms, name)).state == Inline
  }

  function PutSym(w: World, i: nat, s: Sym): World {
    if i < |w.syms| then w.(syms := w.syms[i := s]) else w
  }

  function ObjAt(w: World, o: nat): Object {
    if o < |w.objs| then w.objs[o] else NewObject(None, None)
  }

  /** The object's source when there is one. */
  function SourceOf(w: World, obj: Option<nat>): Option<nat> {
    if obj.Some? then ObjAt(w, obj.value).source else None
  }

  function SymSource(w: World, i: nat): Option<nat> {
    SourceOf(w, SymAt(w, i).obj)
  }

  function PutObj(w: World, o: nat, x: Object): World {
    if o < |w.objs| then w.(objs := w.objs[o := x]) else w
  }

  function SetState(w: World, i: nat, state: SymState): World {
    PutSym(w, i, SymAt(w, i).(state := state))
  }

  function SetObject(w: World, i: nat, o: nat): World {
    PutSym(w, i, SymAt(w, i).(obj := Some(o)))
  }

  function SetSource(w: World, o: nat, src: Option<nat>): World {
    PutObj(w, o, ObjAt(w, o).(source := src))
  }

  function SetTime(w: World, s: nat, time: int): World {
    if s < |w.srcs| then w.(srcs := w.srcs[s := w.srcs[s].(compileTime := time)]) else w
  }

  function Redirect(s: Sym, oOld: nat, oNew: nat): Sym {
    if s.obj == Some(oOld) then s.(obj := Some(oNew)) else s
  }

  function RedirectAll(syms: seq<Sym>, oOld: nat, oNew: nat): (r: seq<Sym>)
    ensures |r| == |syms|
    ensures forall i | 0 <= i < |syms| :: r[i] == Redirect(syms[i], oOld, oNew)
  {
    if syms == [] then []
    else RedirectAll(syms[..|syms| - 1], oOld, oNew) + [Redirect(syms[|syms| - 1], oOld, oNew)]
  }

  /** Every symbol that pointed at oOld points at oNew. */
  function FixupAll(w: World, oOld: nat, oNew: nat): World {
    w.(syms := RedirectAll(w.syms, oOld, oNew))
  }

  lemma InsertKeepsUnique(w: World, s: Sym)
    requires UniqueNames(w) && Find(w.syms, s.name) < 0
    ensures UniqueNames(Insert(w, s))
  {
  }

  /** Inserting at the head of the list hides older entries of the same name and no others. */
  lemma FindAfterInsert(syms: seq<Sym>, s: Sym, name: string)
    ensures Find(syms + [s], name) == if s.name == name then |syms| else Find(syms, name)
  {
    assert (syms + [s])[..|syms|] == syms;
  }

  /** Find looks at names only. */
  lemma {:induction false} FindSameNames(a: seq<Sym>, b: seq<Sym>, name: string)
    requires |a| == |b| && forall i | 0 <= i < |a| :: a[i].name == b[i].name
    ensures Find(a, name) == Find(b, name)
  {
    var x, y := Find(a, name), Find(b, name);
    assert y >= 0 ==> a[y].name == name;
    assert x >= 0 ==> b[x].name == name;
  }

  // Assignments keep the state well formed.

  lemma WfInsert(w: World, s: Sym)
    requires Wf(w) && (s.obj.Some? ==> s.obj.value < |w.objs|)
    ensures Wf(Insert(w, s))
  {
  }

  lemma WfPutSym(w: World, i: nat, s: Sym)
    requires Wf(w) && (s.obj.Some? ==> s.obj.value < |w.objs|)
    ensures Wf(PutSym(w, i, s))
  {
  }

  lemma WfSetSource(w: World, o: nat, src: Option<nat>)
    requires Wf(w) && (src.Some? ==> src.value < |w.srcs|)
    ensures Wf(SetSource(w, o, src))
  {
  }

  lemma WfFixupAll(w: World, oOld: nat, oNew: nat)
    requires Wf(w) && oNew < |w.objs|
    ensures Wf(FixupAll(w, oOld, oNew))
  {
  }
}
