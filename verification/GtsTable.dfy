/** The hashed symbol table in the heap: bucket heads, chains threaded through _next, symbols that
    share object records. W() reads the whole state off as a value. */
module GtsTable {
  import opened CText
  import opened GtsWorld
  import opened GtsOrder
  import opened GtsPasses
  import opened GtsUsers

  /** A source record is filled in when it is made, and later told how long it takes to compile; only its address
      tells two equal ones apart. */
  class EhSource {
    const id: nat   // how many source records were allocated before it
    const name: string
    const directory: Option<string>
    const ccArgs: seq<string>
    const savefile: Option<string>
    var compileTime: int
    const target: Option<string>

    constructor (id: nat, src: Source)
      ensures this.id == id && View() == src
    {
      this.id := id;
      name, directory, ccArgs := src.name, src.directory, src.ccArgs;
      savefile, compileTime, target := src.savefile, src.compileTime, src.target;
    }

    ghost function View(): Source
      reads this
    {
      Source(name, directory, ccArgs, savefile, compileTime, target)
    }
  }

  class EhObject {
    const id: nat   // how many object records were allocated before it
    const name: Option<string>
    var source: EhSource?
    var recompile: EhObject?
    var needsUnzap: nat
    var nusers: nat

    constructor (id: nat, name: Option<string>, source: EhSource?)
      ensures this.id == id && this.name == name && this.source == source
      ensures recompile == null && needsUnzap == 0 && nusers == 0
    {
      this.id := id;
      this.name := name;
      this.source := source;
      recompile, needsUnzap, nusers := null, 0, 0;
    }

    ghost function View(): Object
      reads this
    {
      Object(name, if source == null then None else Some(source.id),
             if recompile == null then None else Some(recompile.id), needsUnzap, nusers)
    }
  }

  class EhSym {
    ghost const id: nat
    const name: string
    var next: EhSym?
    var obj: EhObject?
    var ngusers: nat
    var nlusers: nat
    var state: SymState

    constructor (ghost id: nat, name: string, obj: EhObject?, state: SymState)
      ensures this.id == id && this.name == name && this.obj == obj && this.state == state
      ensures ngusers == 0 && nlusers == 0
    {
      this.id := id;
      this.name := name;
      this.obj := obj;
      this.state := state;
      next, ngusers, nlusers := null, 0, 0;
    }

    ghost function View(): Sym
      reads this
    {
      Sym(name, if obj == null then None else Some(obj.id), ngusers, nlusers, state)
    }
  }

  /** A callback with its argument block, as pointers. */
  datatype Callback =
    | FixupMappee(oOld: EhObject, oNew: EhObject)
    | FlushMappee(vector: Option<seq<EhSym>>, index: nat)
    | SummaryMappee(sums: Summary)
    | NusersMappee
    | RecompileMappee(list: EhObject, count: nat, wish: nat, unzap: nat, zap: nat)
    | ProbeMappee(stop: string -> bool, visited: seq<EhSym>)

  ghost function Ids(v: seq<EhSym>): (r: seq<nat>)
    ensures |r| == |v| && forall i | 0 <= i < |v| :: r[i] == v[i].id
  {
    seq(|v|, i requires 0 <= i < |v| => v[i].id)
  }

  ghost function PassOf(c: Callback): Pass {
    match c
    case FixupMappee(oOld, oNew) => Fixup(oOld.id, oNew.id)
    case FlushMappee(vector, index) => Flush(if vector.None? then None else Some(Ids(vector.value)), index)
    case SummaryMappee(sums) => Summarize(sums)
    case NusersMappee => CountUsers
    case RecompileMappee(_, _, _, _, _) => Recompile(PlanOf(c))
    case ProbeMappee(stop, visited) => Probe(stop, Ids(visited))
  }

  ghost function PlanOf(c: Callback): Plan
    requires c.RecompileMappee?
  {
    Plan(c.list.id, c.count, c.wish, c.unzap, c.zap)
  }

  /** The bucket index is computed by masking the hash. */
  function BucketOf(hash: string -> nat, size: nat, name: string): nat
    requires size > 0
  {
    BitAnd(hash(name), size - 1)
  }

  ghost function BucketsOf(hash: string -> nat, size: nat, syms: seq<EhSym>): (bk: seq<nat>)
    requires size > 0
    ensures |bk| == |syms|
    ensures forall i | 0 <= i < |syms| :: bk[i] == BucketOf(hash, size, syms[i].name)
  {
    seq(|syms|, i requires 0 <= i < |syms| => BucketOf(hash, size, syms[i].name))
  }

  ghost function At(syms: seq<EhSym>, j: int): EhSym?
    requires -1 <= j < |syms|
  {
    if j < 0 then null else syms[j]
  }

  /** Each symbol links to the one inserted before it in its bucket. */
  ghost predicate Links(syms: seq<EhSym>, bk: seq<nat>)
    reads syms`next
  {
    |bk| == |syms| && forall i {:trigger syms[i].next} | 0 <= i < |syms| :: syms[i].next == At(syms, Latest(bk, i, bk[i]))
  }

  /** Each bucket head is the latest symbol of that bucket. */
  ghost predicate Heads(heads: seq<EhSym?>, syms: seq<EhSym>, bk: seq<nat>) {
    |bk| == |syms| && forall b | 0 <= b < |heads| :: heads[b] == At(syms, Latest(bk, |syms|, b))
  }

  /** Symbols and objects know their own position and point at recorded objects and sources only. */
  ghost predicate SymRecords(syms: seq<EhSym>, objs: seq<EhObject>)
    reads syms`obj
  {
    && (forall i {:trigger syms[i].id} | 0 <= i < |syms| :: syms[i].id == i)
    && (forall i {:trigger syms[i].obj} | 0 <= i < |syms| :: syms[i].obj != null ==> syms[i].obj in objs)
  }

  ghost predicate ObjectRecords(objs: seq<EhObject>, srcs: seq<EhSource>)
    reads objs`source, objs`recompile
  {
    && (forall o {:trigger objs[o].id} | 0 <= o < |objs| :: objs[o].id == o)
    && (forall o {:trigger objs[o].source} | 0 <= o < |objs| :: objs[o].source != null ==> objs[o].source in srcs)
    && (forall o {:trigger objs[o].recompile} | 0 <= o < |objs| ::
          objs[o].recompile != null ==> objs[o].recompile in objs)
  }

  ghost predicate SourceRecords(srcs: seq<EhSource>) {
    forall s {:trigger srcs[s].id} | 0 <= s < |srcs| :: srcs[s].id == s
  }

  ghost function SymViews(syms: seq<EhSym>): (r: seq<Sym>)
    reads syms
    ensures |r| == |syms| && forall i | 0 <= i < |syms| :: r[i] == syms[i].View()
  {
    seq(|syms|, i requires 0 <= i < |syms| reads syms => syms[i].View())
  }

  ghost function ObjectViews(objs: seq<EhObject>): (r: seq<Object>)
    reads objs
    ensures |r| == |objs| && forall o | 0 <= o < |objs| :: r[o] == objs[o].View()
  {
    seq(|objs|, o requires 0 <= o < |objs| reads objs => objs[o].View())
  }

  ghost function SourceViews(srcs: seq<EhSource>): (r: seq<Source>)
    reads srcs
    ensures |r| == |srcs| && forall s | 0 <= s < |srcs| :: r[s] == srcs[s].View()
  {
    seq(|srcs|, s requires 0 <= s < |srcs| reads srcs => srcs[s].View())
  }

  class EhSymTable {
    const hash: string -> nat   // elf_hash; nothing depends on which function it is
    const heads: array<EhSym?>
    const size: nat
    ghost const exponent: nat
    var nentries: nat
    var nsources: nat              // these two number the records; they stand for the allocator
    var nobjects: nat
    const address: nat -> int      // where the allocator puts the source record of each number
    ghost var syms: seq<EhSym>     // every symbol, in the order of insertion
    ghost var objs: seq<EhObject>  // every object record, in the order of allocation
    ghost var srcs: seq<EhSource>  // every source record, in the order of allocation

    ghost predicate Shape()
    {
      size == Pow2(exponent) && size > 0 && heads.Length == size
    }

    ghost function Buckets(): (bk: seq<nat>)
      reads this`syms
      requires Shape()
      ensures |bk| == |syms|
    {
      BucketsOf(hash, size, syms)
    }

    ghost predicate Chained()
      reads this, heads, syms`next
      requires Shape()
    {
      Links(syms, Buckets()) && Heads(heads[..], syms, Buckets())
    }

    ghost predicate Records()
      reads this, syms`obj, objs`source, objs`recompile
    {
      SymRecords(syms, objs) && ObjectRecords(objs, srcs) && SourceRecords(srcs)
    }

    ghost predicate Valid()
      reads this, heads, syms`next, syms`obj, objs`source, objs`recompile
    {
      Shape() && nentries == |syms| && nsources == |srcs| && nobjects == |objs|
      && Chained() && Records()
    }

    ghost function W(): (w: World)
      reads this, syms, objs, srcs
    {
      World(SymViews(syms), ObjectViews(objs), SourceViews(srcs))
    }

    constructor (p_size: nat, hash: string -> nat, address: nat -> int)
      ensures Valid() && fresh(heads) && this.hash == hash && this.address == address
      ensures W() == EMPTY_WORLD && syms == [] && objs == [] && srcs == []
      ensures exponent <= 14
      ensures size >= p_size || size == 16 * 1024
      ensures exponent > 0 ==> Pow2(exponent - 1) < p_size
    {
      var sz := 1;
      ghost var k := 0;
      while sz < 16 * 1024
        invariant k <= 14 && sz == Pow2(k) > 0
        invariant if k == 14 then sz == 16 * 1024 else sz < 16 * 1024
        invariant k > 0 ==> Pow2(k - 1) < p_size
        decreases 14 - k
      {
        if sz >= p_size {
          break;
        }
        PowersUpTo14(k);
        sz := 2 * sz;
        k := k + 1;
      }
      this.hash, this.address := hash, address;
      nsources, nobjects := 0, 0;
      size := sz;
      exponent := k;
      heads := new EhSym?[sz](_ => null);
      nentries := 0;
      syms, objs, srcs := [], [], [];
      new;
      assert forall b | 0 <= b < size :: heads[b] == null;
    }

    method Index(name: string) returns (index: nat)
      requires Shape()
      ensures index < size && index == BucketOf(hash, size, name)
    {
      MaskIsRemainder(hash(name), exponent);
      index := BucketOf(hash, size, name);
    }

    method Insert(sym: EhSym)
      requires Valid()
      requires sym.id == |syms| && sym !in syms
      requires sym.obj != null ==> sym.obj in objs
      modifies this`nentries, this`syms, heads, sym`next
      ensures Valid() && syms == old(syms) + [sym]
      ensures W() == GtsWorld.Insert(old(W()), sym.View())
    {
      hide Links, Heads, SymRecords, ObjectRecords, SourceRecords;
      ghost var bk, before := Buckets(), syms;
      var index := Index(sym.name);
      HeadIs(heads[..], syms, bk, index);
      sym.next := heads[index];
      heads[index] := sym;
      nentries := nentries + 1;
      syms := syms + [sym];
      BucketsAppend(hash, size, before, sym);
      assert Buckets() == bk + [index];
      assert Links(before, bk);
      LinksAppend(before, bk, sym, index);
      assert Links(syms, Buckets());
      HeadsAppend(old(heads[..]), before, bk, sym, index);
      assert heads[..] == old(heads[..])[index := sym];
      assert Heads(heads[..], syms, Buckets());
      assert SymRecords(before, objs);
      SymRecordsAppend(before, sym, objs);
      assert ObjectRecords(objs, srcs);
      assert SourceRecords(srcs);
      SymViewsAppend(before, sym);
      assert SymViews(before) == old(SymViews(syms));
      assert ObjectViews(objs) == old(ObjectViews(objs));
      assert SourceViews(srcs) == old(SourceViews(srcs));
    }

    /** A symbol in another bucket has another name. */
    lemma SkippedNames(bk: seq<nat>, name: string, j: int, n: nat)
      requires Shape() && bk == Buckets() && n <= |syms|
      requires j == Latest(bk, n, BucketOf(hash, size, name))
      ensures forall k | j < k < n :: syms[k].name != name
    {
      forall k | j < k < n ensures syms[k].name != name {
        assert bk[k] == BucketOf(hash, size, syms[k].name);
      }
    }

    /** sym is what the table has under that name, NULL when it has nothing. */
    ghost predicate Found(sym: EhSym?, name: string)
      reads this, syms, objs, srcs
    {
      if sym == null then GtsWorld.Find(W().syms, name) < 0
      else
        && sym in syms && (sym.obj != null ==> sym.obj in objs)
        && GtsWorld.Find(W().syms, name) == sym.id && SymAt(W(), sym.id) == sym.View()
    }

    method Find(name: string) returns (sym: EhSym?)
      requires Valid()
      ensures sym == At(syms, GtsWorld.Find(W().syms, name))
      ensures Found(sym, name)
    {
      hide Found, SymRecords, ObjectRecords, SourceRecords;
      var index := Index(name);
      sym := heads[index];
      ghost var bk := Buckets();
      ghost var j := Latest(bk, |syms|, index);
      SkippedNames(bk, name, j, |syms|);
      while sym != null
        invariant -1 <= j < |syms| && sym == At(syms, j)
        invariant j >= 0 ==> bk[j] == index
        invariant forall k | j < k < |syms| :: syms[k].name != name
        decreases j
      {
        if name == sym.name {
          break;
        }
        SkippedNames(bk, name, Latest(bk, j, index), j);
        sym := sym.next;
        j := Latest(bk, j, index);
      }
      FindIs(W().syms, name, j);
      IsFound(sym, name, j);
    }

    lemma IsFound(sym: EhSym?, name: string, j: int)
      requires Valid() && -1 <= j < |syms| && sym == At(syms, j) && GtsWorld.Find(W().syms, name) == j
      ensures Found(sym, name)
    {
      if sym != null {
        SymAtId(sym);
      }
    }

    // Field assignments, with what each does to the state.

    method PutSymObject(sym: EhSym, o: EhObject)
      requires Valid() && sym in syms && o in objs
      modifies sym`obj
      ensures Valid() && W() == SetObject(old(W()), sym.id, o.id)
      ensures sym.obj == o
    {
      sym.obj := o;
      assert SymViews(syms) == old(SymViews(syms))[sym.id := sym.View()];
      assert ObjectViews(objs) == old(ObjectViews(objs));
      assert SourceViews(srcs) == old(SourceViews(srcs));
    }

    method PutSymState(sym: EhSym, state: SymState)
      requires Valid() && sym in syms
      modifies sym`state
      ensures Valid() && W() == SetState(old(W()), sym.id, state)
      ensures sym.state == state
    {
      sym.state := state;
      assert SymViews(syms) == old(SymViews(syms))[sym.id := sym.View()];
      assert ObjectViews(objs) == old(ObjectViews(objs));
      assert SourceViews(srcs) == old(SourceViews(srcs));
    }

    method AddObjectUsers(o: EhObject, n: nat)
      requires Valid() && o in objs
      modifies o`nusers
      ensures Valid() && W() == AddUsers(old(W()), o.id, n)
    {
      o.nusers := o.nusers + n;
      assert SymViews(syms) == old(SymViews(syms));
      assert ObjectViews(objs) == old(ObjectViews(objs))[o.id := o.View()];
      assert SourceViews(srcs) == old(SourceViews(srcs));
    }

    method AddUnzap(o: EhObject)
      requires Valid() && o in objs
      modifies o`needsUnzap
      ensures Valid() && W() == GtsPasses.AddUnzap(old(W()), o.id)
    {
      o.needsUnzap := o.needsUnzap + 1;
      assert SymViews(syms) == old(SymViews(syms));
      assert ObjectViews(objs) == old(ObjectViews(objs))[o.id := o.View()];
      assert SourceViews(srcs) == old(SourceViews(srcs));
    }

    method PutRecompile(o: EhObject, link: EhObject)
      requires Valid() && o in objs && link in objs
      modifies o`recompile
      ensures Valid()
      ensures W() == PutObj(old(W()), o.id, ObjAt(old(W()), o.id).(recompile := Some(link.id)))
    {
      o.recompile := link;
      assert SymViews(syms) == old(SymViews(syms));
      assert ObjectViews(objs) == old(ObjectViews(objs))[o.id := o.View()];
      assert SourceViews(srcs) == old(SourceViews(srcs));
    }

    method PutSource(o: EhObject, src: EhSource?)
      requires Valid() && o in objs && (src != null ==> src in srcs)
      modifies o`source
      ensures Valid() && W() == SetSource(old(W()), o.id, if src == null then None else Some(src.id))
    {
      o.source := src;
      assert SymViews(syms) == old(SymViews(syms));
      assert ObjectViews(objs) == old(ObjectViews(objs))[o.id := o.View()];
      assert SourceViews(srcs) == old(SourceViews(srcs));
    }

    ghost predicate CallbackOk(c: Callback)
      reads this
    {
      && (c.FixupMappee? ==> c.oOld in objs && c.oNew in objs)
      && (c.RecompileMappee? ==> c.list in objs)
      && (c.FlushMappee? && c.vector.Some? ==> forall s | s in c.vector.value :: s in syms)
    }

    lemma SameId(a: EhObject, b: EhObject)
      requires Valid() && a in objs && b in objs
      ensures a.id < |objs| && objs[a.id] == a
      ensures a.id == b.id <==> a == b
    {
      var i :| 0 <= i < |objs| && objs[i] == a;
      var j :| 0 <= j < |objs| && objs[j] == b;
      assert objs[i].id == i && objs[j].id == j;
    }

    lemma SymAtId(sym: EhSym)
      requires Valid() && sym in syms
      ensures sym.id < |syms| && syms[sym.id] == sym && SymAt(W(), sym.id) == sym.View()
      ensures sym.obj != null ==> sym.obj in objs
    {
      var i :| 0 <= i < |syms| && syms[i] == sym;
      assert syms[i].id == i;
    }

    lemma ObjAtId(o: EhObject)
      requires Valid() && o in objs
      ensures o.id < |objs| && objs[o.id] == o && ObjAt(W(), o.id) == o.View()
    {
      SameId(o, o);
    }

    /** Sources are told apart by their place in the record. */
    lemma SourceIds(a: EhObject, b: EhObject)
      requires Valid() && a in objs && b in objs
      ensures a.source != null ==> a.source in srcs
      ensures (a.source == b.source) == (a.View().source == b.View().source)
    {
      SameId(a, b);
      SameId(b, a);
      if a.source != null && b.source != null {
        assert objs[a.id].source in srcs && objs[b.id].source in srcs;
        var i :| 0 <= i < |srcs| && srcs[i] == a.source;
        var j :| 0 <= j < |srcs| && srcs[j] == b.source;
        assert srcs[i].id == i && srcs[j].id == j;
      }
    }

    lemma SourceAt(o: EhObject)
      requires Valid() && o in objs && o.source != null
      ensures o.source.id < |W().srcs| && W().srcs[o.source.id] == o.source.View()
    {
      SourceIds(o, o);
      var i :| 0 <= i < |srcs| && srcs[i] == o.source;
      assert srcs[i].id == i;
    }

    lemma LinkKnown(o: EhObject)
      requires Valid() && o in objs && o.recompile != null
      ensures o.recompile in objs
    {
      SameId(o, o);
    }

    /** The value read off a valid table has no dangling pointers. */
    lemma ValidIsWf()
      requires Valid()
      ensures Wf(W())
    {
      forall i | 0 <= i < |syms| && syms[i].obj != null ensures syms[i].obj.id < |objs| {
        SymAtId(syms[i]);
        ObjAtId(syms[i].obj);
      }
      forall o | 0 <= o < |objs| && objs[o].source != null ensures objs[o].source.id < |srcs| {
        SourceAt(objs[o]);
      }
      forall o | 0 <= o < |objs| && objs[o].recompile != null ensures objs[o].recompile.id < |objs| {
        ObjAtId(objs[o].recompile);
      }
    }

    method Unzap(sym: EhSym, o: EhObject, c: Callback) returns (c': Callback)
      requires Valid() && sym in syms && o in objs && c.RecompileMappee? && CallbackOk(c)
      modifies sym`state, o`recompile, o`needsUnzap
      ensures Valid() && c'.RecompileMappee? && CallbackOk(c')
      ensures W() == UnzapStep(old(W()), PlanOf(c), sym.id, o.id).0
      ensures PlanOf(c') == UnzapStep(old(W()), PlanOf(c), sym.id, o.id).1
    {
      hide Valid, W, SetState, GtsPasses.AddUnzap, GtsPasses.Enlist;
      c' := c;
      ObjAtId(o);
      assert CanBuild(ObjAt(W(), o.id)) <==> o.source != null && o.name.Some?;
      if o.source != null && o.name.Some? {
        PutSymState(sym, Defined);
        c' := Enlist(o, c');
        AddUnzap(o);
        c' := RecompileMappee(c'.list, c'.count, c'.wish + 1, c'.unzap + 1, c'.zap);
      } else {
        c' := RecompileMappee(c.list, c.count, c.wish + 1, c.unzap, c.zap);
      }
    }

    method Zap(sym: EhSym, o: EhObject, c: Callback) returns (c': Callback)
      requires Valid() && sym in syms && o in objs && c.RecompileMappee? && CallbackOk(c)
      modifies sym`state, o`recompile
      ensures Valid() && c'.RecompileMappee? && CallbackOk(c')
      ensures W() == ZapStep(old(W()), PlanOf(c), sym.id, o.id).0
      ensures PlanOf(c') == ZapStep(old(W()), PlanOf(c), sym.id, o.id).1
    {
      hide Valid, W, SetState, GtsPasses.AddUnzap, GtsPasses.Enlist;
      c' := c;
      ObjAtId(o);
      assert CanBuild(ObjAt(W(), o.id)) <==> o.source != null && o.name.Some?;
      if o.source != null && o.name.Some? {
        PutSymState(sym, Zapped);
        c' := Enlist(o, c');
        c' := RecompileMappee(c'.list, c'.count, c'.wish + 1, c'.unzap, c'.zap + 1);
      } else {
        c' := RecompileMappee(c.list, c.count, c.wish + 1, c.unzap, c.zap);
      }
    }

    /** recompile_init_mappee */
    method RecompileMappeeStep(sym: EhSym, c: Callback) returns (c': Callback)
      requires Valid() && sym in syms && c.RecompileMappee? && CallbackOk(c)
      modifies syms`state, objs`recompile, objs`needsUnzap
      ensures Valid() && c'.RecompileMappee? && CallbackOk(c')
      ensures W() == RecompileStep(old(W()), PlanOf(c), sym.id).0
      ensures PlanOf(c') == RecompileStep(old(W()), PlanOf(c), sym.id).1
    {
      c' := c;
      SymAtId(sym);
      if sym.obj != null {
        ObjAtId(sym.obj);
      }
      if sym.obj != null && sym.state == Zapped && sym.ngusers != 0 {
        c' := Unzap(sym, sym.obj, c);
      } else if sym.obj != null && sym.state == Defined && sym.ngusers == 0 && sym.nlusers != 0
             && sym.obj.nusers != 0 {
        c' := Zap(sym, sym.obj, c);
      }
    }

    /** eh_summary_mappee */
    method SummaryMappeeStep(sym: EhSym, s: Summary) returns (s': Summary)
      requires Valid() && sym in syms
      ensures s' == SummaryStep(W(), s, sym.id)
    {
      SymAtId(sym);
      if sym.obj != null {
        ObjAtId(sym.obj);
      }
      if sym.obj != null && sym.state == Defined {
        if sym.ngusers != 0 {
          s' := s.(nused := s.nused + 1);
        } else if sym.obj.nusers == 0 {
          s' := s.(nunlinked := s.nunlinked + 1);
        } else if sym.nlusers != 0 {
          s' := s.(ndefined := s.ndefined + 1);
        } else {
          s' := s.(ndeadcode := s.ndeadcode + 1);
        }
      } else if sym.obj != null && sym.state == Zapped {
        if sym.ngusers != 0 {
          s' := s.(nzappedNowused := s.nzappedNowused + 1);
        } else {
          s' := s.(nzapped := s.nzapped + 1);
        }
      } else if sym.state == Inline {
        s' := s.(ninlined := s.ninlined + 1);
      } else {
        s' := s.(nundefined := s.nundefined + 1);
      }
    }

    method Enlist(o: EhObject, c: Callback) returns (c': Callback)
      requires Valid() && o in objs && c.RecompileMappee? && CallbackOk(c)
      modifies o`recompile
      ensures Valid() && c'.RecompileMappee? && CallbackOk(c')
      ensures W() == GtsPasses.Enlist(old(W()), PlanOf(c), o.id).0
      ensures PlanOf(c') == GtsPasses.Enlist(old(W()), PlanOf(c), o.id).1
      ensures c'.unzap == c.unzap && c'.zap == c.zap && c'.wish == c.wish
    {
      c' := c;
      ObjAtId(o);
      if o.recompile == null {
        PutRecompile(o, c.list);
        c' := c.(list := o, count := c.count + 1);
      }
    }

    /** Calls a callback on one symbol. */
    method Apply(sym: EhSym, c: Callback) returns (c': Callback, rc: int)
      requires Valid() && sym in syms && CallbackOk(c)
      modifies syms`obj, syms`state, objs`recompile, objs`needsUnzap, objs`nusers
      ensures Valid() && CallbackOk(c')
      ensures State(W(), PassOf(c'), rc == -1) == Step(State(old(W()), PassOf(c), false), sym.id)
    {
      hide Valid, W, RecompileStep, SummaryStep;
      c', rc := c, 0;
      SymAtId(sym);
      match c {
        case FixupMappee(oOld, oNew) =>
          if sym.obj != null {
            SameId(sym.obj, oOld);
          }
          if sym.obj == oOld {
            PutSymObject(sym, oNew);
          }
        case FlushMappee(vector, index) =>
          if sym.state == Inline || (sym.obj != null && sym.state == Defined)
             || (sym.obj != null && sym.state == Zapped) {
            if vector.Some? {
              assert Ids(vector.value + [sym]) == Ids(vector.value) + [sym.id];
              c' := c.(vector := Some(vector.value + [sym]));
            }
            c' := c'.(index := index + 1);
          }
        case SummaryMappee(sums) =>
          var sums' := SummaryMappeeStep(sym, sums);
          c' := SummaryMappee(sums');
        case NusersMappee =>
          if sym.obj != null {
            ObjAtId(sym.obj);
            AddObjectUsers(sym.obj, sym.ngusers);
          }
        case RecompileMappee(_, _, _, _, _) =>
          c' := RecompileMappeeStep(sym, c);
        case ProbeMappee(stop, visited) =>
          assert Ids(visited + [sym]) == Ids(visited) + [sym.id];
          c' := ProbeMappee(stop, visited + [sym]);
          if stop(sym.name) {
            rc := -1;
          }
      }
    }

    /** EhSymTableMap: the callback meets the symbols bucket by bucket, in the order Walk(). */
    method Map(c: Callback) returns (c': Callback, rc: int)
      requires Valid() && CallbackOk(c)
      modifies syms`obj, syms`state, objs`recompile, objs`needsUnzap, objs`nusers
      ensures Valid() && CallbackOk(c')
      ensures State(W(), PassOf(c'), rc == -1) == Run(State(old(W()), PassOf(c), false), Walk(), |Walk()|)
    {
      c' := c;
      ghost var bk := Buckets();
      hide Valid, W, Step, Run, WalkFrom, GtsPasses.Walk;
      ghost var st := State(W(), PassOf(c), false);
      ghost var end := GtsPasses.Walk(st, Walk());
      WalkStarts(st, bk, size);
      for n := 0 to size
        invariant Valid() && CallbackOk(c')
        invariant GtsPasses.Walk(State(W(), PassOf(c'), false), WalkFrom(bk, size, n)) == end
      {
        c', rc := MapBucket(n, c', end);
        if rc == -1 {
          return;
        }
      }
      rc := 0;
      WalkedAll(State(W(), PassOf(c'), false), bk, size);
    }

    /** The inner loop: from the head of bucket n to the end of its chain. */
    method MapBucket(n: nat, c: Callback, ghost end: State) returns (c': Callback, rc: int)
      requires Valid() && CallbackOk(c) && n < size
      requires GtsPasses.Walk(State(W(), PassOf(c), false), WalkFrom(Buckets(), size, n)) == end
      modifies syms`obj, syms`state, objs`recompile, objs`needsUnzap, objs`nusers
      ensures Valid() && CallbackOk(c')
      ensures if rc == -1 then State(W(), PassOf(c'), true) == end
              else GtsPasses.Walk(State(W(), PassOf(c'), false), WalkFrom(Buckets(), size, n + 1)) == end
    {
      c', rc := c, 0;
      ghost var bk := Buckets();
      var sym := heads[n];
      ghost var j := Latest(bk, |bk|, n);
      while sym != null
        invariant Valid() && CallbackOk(c') && rc != -1
        invariant -1 <= j < |bk| && sym == At(syms, j)
        invariant GtsPasses.Walk(State(W(), PassOf(c'), false), Ahead(bk, size, n, j)) == end
        decreases j
      {
        AheadStep(bk, size, n, j);
        assert sym.id == j;
        c', rc := Apply(sym, c');
        if rc == -1 {
          WalkStopped(State(W(), PassOf(c'), true), Ahead(bk, size, n, Latest(bk, j, bk[j])));
          return;
        }
        sym := sym.next;
        j := Latest(bk, j, bk[j]);
      }
      assert Ahead(bk, size, n, -1) == WalkFrom(bk, size, n + 1);
    }

    ghost function Walk(): (order: seq<nat>)
      reads this`syms
      requires Shape()
    {
      WalkOrder(Buckets(), size)
    }

    // Records that come into being while the driver runs.

    twostate predicate NewSyms()
      reads this
    {
      fresh((set s | s in syms) - (set s | s in old(syms)))
    }

    /** The records that were not there before were allocated since. */
    twostate predicate OnlyNew()
      reads this
    {
      && NewSyms()
      && fresh((set o | o in objs) - (set o | o in old(objs)))
      && fresh((set s | s in srcs) - (set s | s in old(srcs)))
    }

    method AddObject(name: Option<string>, source: EhSource?) returns (o: EhObject)
      requires Valid() && (source != null ==> source in srcs)
      modifies this`objs, this`nobjects
      ensures Valid() && fresh(o) && o in objs && objs == old(objs) + [o]
      ensures o.id == |old(objs)| == |old(W()).objs| && o.name == name && o.source == source && o.recompile == null
      ensures W() == old(W()).(objs := old(W()).objs
                                 + [NewObject(name, if source == null then None else Some(source.id))])
    {
      o := new EhObject(nobjects, name, source);
      nobjects := nobjects + 1;
      objs := objs + [o];
      assert SymViews(syms) == old(SymViews(syms));
      assert ObjectViews(objs) == old(ObjectViews(objs)) + [o.View()];
      assert SourceViews(srcs) == old(SourceViews(srcs));
    }

    method AddSource(src: Source) returns (s: EhSource)
      requires Valid()
      modifies this`srcs, this`nsources
      ensures Valid() && fresh(s) && s in srcs && srcs == old(srcs) + [s]
      ensures s.id == |old(srcs)| == |old(W()).srcs| && s.View() == src
      ensures W() == old(W()).(srcs := old(W()).srcs + [src])
    {
      s := new EhSource(nsources, src);
      nsources := nsources + 1;
      srcs := srcs + [s];
      assert SymViews(syms) == old(SymViews(syms));
      assert ObjectViews(objs) == old(ObjectViews(objs));
      assert SourceViews(srcs) == old(SourceViews(srcs)) + [src];
    }

    /** EhSymNewDefined and the like, followed by EhSymTableInsert. */
    method AddSym(name: string, obj: EhObject?, state: SymState) returns (sym: EhSym)
      requires Valid() && (obj != null ==> obj in objs)
      modifies this`nentries, this`syms, heads
      ensures Valid() && fresh(sym) && syms == old(syms) + [sym] && sym in syms
      ensures sym.id == |old(syms)| == |old(W()).syms| && sym.name == name && sym.obj == obj && sym.state == state
      ensures W() == GtsWorld.Insert(old(W()), NewSym(name, if obj == null then None else Some(obj.id), state))
    {
      sym := new EhSym(|syms|, name, obj, state);
      assert sym.View() == NewSym(name, if obj == null then None else Some(obj.id), state);
      Insert(sym);
    }

    method AddGlobalUser(sym: EhSym)
      requires Valid() && sym in syms
      modifies sym`ngusers
      ensures Valid() && W() == AddGlobal(old(W()), sym.id)
    {
      sym.ngusers := sym.ngusers + 1;
      assert SymViews(syms) == old(SymViews(syms))[sym.id := sym.View()];
      assert ObjectViews(objs) == old(ObjectViews(objs));
      assert SourceViews(srcs) == old(SourceViews(srcs));
    }

    method AddLocalUsers(sym: EhSym, n: nat)
      requires Valid() && sym in syms
      modifies sym`nlusers
      ensures Valid() && W() == AddLocal(old(W()), sym.id, n)
    {
      sym.nlusers := sym.nlusers + n;
      assert SymViews(syms) == old(SymViews(syms))[sym.id := sym.View()];
      assert ObjectViews(objs) == old(ObjectViews(objs));
      assert SourceViews(srcs) == old(SourceViews(srcs));
    }

    method PutTime(src: EhSource, time: int)
      requires Valid() && src in srcs
      modifies src`compileTime
      ensures Valid() && W() == SetTime(old(W()), src.id, time)
    {
      ghost var i :| 0 <= i < |srcs| && srcs[i] == src;
      assert srcs[i].id == i;
      src.compileTime := time;
      assert SymViews(syms) == old(SymViews(syms));
      assert ObjectViews(objs) == old(ObjectViews(objs));
      assert SourceViews(srcs) == old(SourceViews(srcs))[src.id := src.View()];
    }

    method ClearRecompile(o: EhObject)
      requires Valid() && o in objs
      modifies o`recompile
      ensures Valid() && o.recompile == null
      ensures W() == PutObj(old(W()), o.id, ObjAt(old(W()), o.id).(recompile := None))
    {
      o.recompile := null;
      assert SymViews(syms) == old(SymViews(syms));
      assert ObjectViews(objs) == old(ObjectViews(objs))[o.id := o.View()];
      assert SourceViews(srcs) == old(SourceViews(srcs));
    }

    /** EhSymTableObjectFixup: afterwards every symbol of oOld belongs to oNew. */
    method ObjectFixup(oOld: EhObject, oNew: EhObject)
      requires Valid() && oOld in objs && oNew in objs
      modifies syms`obj, syms`state, objs`recompile, objs`needsUnzap, objs`nusers
      ensures Valid() && W() == FixupAll(old(W()), oOld.id, oNew.id)
    {
      ghost var st := State(W(), Fixup(oOld.id, oNew.id), false);
      var c, rc := Map(FixupMappee(oOld, oNew));
      WalkIsOnce();
      FixupPass(st, Walk());
    }

    lemma WalkIsOnce()
      requires Valid()
      ensures Shape() && Once(Walk(), |W().syms|) && |Walk()| == |W().syms| == |syms|
    {
      forall i | 0 <= i < |syms| ensures Buckets()[i] < size {
        MaskIsRemainder(hash(syms[i].name), exponent);
      }
      WalkMeetsEachOnce(Buckets(), size);
    }
  }

  lemma LinksAppend(syms: seq<EhSym>, bk: seq<nat>, sym: EhSym, index: nat)
    requires Links(syms, bk) && sym.next == At(syms, Latest(bk, |syms|, index))
    ensures Links(syms + [sym], bk + [index])
  {
    forall i | 0 <= i <= |syms|
      ensures (syms + [sym])[i].next == At(syms + [sym], Latest(bk + [index], i, (bk + [index])[i]))
    {
      LatestPrefix(bk, index, i, (bk + [index])[i]);
    }
  }

  lemma HeadIs(heads: seq<EhSym?>, syms: seq<EhSym>, bk: seq<nat>, index: nat)
    requires Heads(heads, syms, bk) && index < |heads|
    ensures |bk| == |syms| && heads[index] == At(syms, Latest(bk, |syms|, index))
  {
  }

  lemma HeadsAppend(heads: seq<EhSym?>, syms: seq<EhSym>, bk: seq<nat>, sym: EhSym, index: nat)
    requires Heads(heads, syms, bk) && index < |heads|
    ensures Heads(heads[index := sym], syms + [sym], bk + [index])
  {
    forall b {:trigger heads[b]} | 0 <= b < |heads|
      ensures heads[index := sym][b] == At(syms + [sym], Latest(bk + [index], |syms| + 1, b))
    {
      LatestPrefix(bk, index, |syms|, b);
    }
  }

  lemma SymRecordsAppend(syms: seq<EhSym>, sym: EhSym, objs: seq<EhObject>)
    requires SymRecords(syms, objs) && sym.id == |syms| && (sym.obj != null ==> sym.obj in objs)
    ensures SymRecords(syms + [sym], objs)
  {
  }

  lemma SymViewsAppend(syms: seq<EhSym>, sym: EhSym)
    ensures SymViews(syms + [sym]) == SymViews(syms) + [sym.View()]
  {
    assert (syms + [sym])[..|syms|] == syms;
  }

  lemma Pow2Grows(j: nat, k: nat)
    ensures j <= k ==> 0 < Pow2(j) <= Pow2(k)
    decreases k
  {
    if j < k {
      Pow2Grows(j, k - 1);
    }
  }

  lemma PowersUpTo14(k: nat)
    requires k < 14
    ensures Pow2(k + 1) == 2 * Pow2(k)
    ensures if k == 13 then Pow2(k + 1) == 16 * 1024 else Pow2(k + 1) < 16 * 1024
  {
    Pow2Grows(k + 1, 13);
    assert Pow2(7) == 128;
    assert Pow2(13) == 8192;
  }

  lemma BucketsAppend(hash: string -> nat, size: nat, syms: seq<EhSym>, sym: EhSym)
    requires size > 0
    ensures BucketsOf(hash, size, syms + [sym]) == BucketsOf(hash, size, syms) + [BucketOf(hash, size, sym.name)]
  {
    assert (syms + [sym])[..|syms|] == syms;
  }

  lemma FindIs(syms: seq<Sym>, name: string, j: int)
    requires -1 <= j < |syms| && (j >= 0 ==> syms[j].name == name)
    requires forall i | j < i < |syms| :: syms[i].name != name
    ensures GtsWorld.Find(syms, name) == j
  {
    var r := GtsWorld.Find(syms, name);
    assert r >= 0 ==> syms[r].name == name;
  }
}
