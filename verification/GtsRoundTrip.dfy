/** Loading what was dumped gives the table back. */
module GtsRoundTrip {
  import opened CText
  import opened GtsWorld
  import opened GtsOrder
  import opened GtsPasses
  import opened GtsDatabase

  // --- One line ----------------------------------------------------------------------------------

  lemma {:induction false} NextWord(word: string, rest: string)
    requires NoSpace(word) && (rest != "" ==> IsSpace(rest[0]))
    ensures WordOf(word + rest) == word && RestOf(word + rest) == rest
  {
    if word == "" {
      assert word + rest == rest;
    } else {
      assert (word + rest)[1..] == word[1..] + rest;
      NextWord(word[1..], rest);
    }
  }

  lemma WordAndBlank(word: string, rest: string)
    requires NoSpace(word)
    ensures WordOf(word + (" " + rest)) == word
    ensures RestOf(word + (" " + rest)) != "" && RestOf(word + (" " + rest))[1..] == rest
  {
    NextWord(word, " " + rest);
    assert (" " + rest)[1..] == rest;
  }

  ghost predicate Tag(tag: char) {
    tag == 'G' || tag == 'Z' || tag == 'I'
  }

  /** A name that can start a line. */
  ghost predicate LineName(name: string) {
    Word(name) && name[0] != '!'
  }

  lemma ParseName(name: string, rest: string)
    requires LineName(name)
    ensures ParseLine(name + (" " + rest)) == TagFields(name, Trim(rest))
  {
    var s := name + (" " + rest);
    assert s[0] == name[0];
    WordAndBlank(name, rest);
  }

  lemma SymbolLine(name: string, tag: char)
    requires LineName(name) && Tag(tag)
    ensures ParseLine(SymbolText(name, tag)) == Symbol(name, tag)
  {
    assert [' ', tag] == " " + [tag];
    ParseName(name, [tag]);
  }

  lemma {:induction false} ArgsLine(args: seq<string>, found: seq<string>)
    requires args != [] && (forall i | 0 <= i < |args| :: Word(args[i]))
    requires |found| + |args| <= MAX_ARGS
    ensures Args(args[0] + Blanks(args[1..]), found) == Some(found + args)
    decreases |args|
  {
    var t, rest := args[0] + Blanks(args[1..]), Blanks(args[1..]);
    assert t[0] == args[0][0];
    NextWord(args[0], rest);
    if |args| == 1 {
      assert args == [args[0]];
    } else {
      assert rest[1..] == args[1..][0] + Blanks(args[1..][1..]);
      ArgsLine(args[1..], found + [args[0]]);
      assert found + [args[0]] + args[1..] == found + args;
    }
  }

  /** A source that the format can carry: no white space, a name that can start a line, the target before the
      arguments, at most MAX_ARGS and at least one of them, and no "-o" that has an argument after it. */
  ghost predicate Writable(src: Source) {
    && LineName(src.name)
    && NoSpace(Field(src.directory))
    && NoSpace(Field(src.savefile))
    && 1 <= |WrittenArgs(src)| <= MAX_ARGS
    && (forall i | 0 <= i < |WrittenArgs(src)| :: Word(WrittenArgs(src)[i]))
    && (forall i | 0 <= i < |src.ccArgs| - 1 :: src.ccArgs[i] != "-o")
  }

  lemma FieldsLine(name: string, src: Source)
    requires Writable(src)
    ensures SourceFields(name, FieldsText(src))
            == SourceLine(name, Field(src.directory), Field(src.savefile), Decimal(src.compileTime), WrittenArgs(src))
  {
    var args := WrittenArgs(src);
    var argsText := args[0] + Blanks(args[1..]);
    assert TimeText(src) == Decimal(src.compileTime) + (" " + argsText);
    WordAndBlank(Field(src.directory), SaveText(src));
    WordAndBlank(Field(src.savefile), TimeText(src));
    DecimalRoundTrip(src.compileTime);
    WordAndBlank(Decimal(src.compileTime), argsText);
    ArgsLine(args, []);
    assert [] + args == args;
  }

  lemma SourceTextLine(src: Source)
    requires Writable(src)
    ensures ParseLine(SourceText(src))
            == SourceLine(src.name, Field(src.directory), Field(src.savefile), Decimal(src.compileTime), WrittenArgs(src))
  {
    var t := "F" + (" " + FieldsText(src));
    ParseName(src.name, t);
    assert t[0] == 'F' && Trim(t) == t;
    WordAndBlank("F", FieldsText(src));
    FieldsLine(src.name, src);
  }

  lemma {:induction false} NoTarget(args: seq<string>, n: nat, kept: seq<string>, target: Option<string>)
    requires n <= |args| && forall i | n <= i < |args| - 1 :: args[i] != "-o"
    ensures TakeTarget(args, n, kept, target) == (kept + args[n..], target)
    decreases |args| - n
  {
    if n < |args| {
      NoTarget(args, n + 1, kept + [args[n]], target);
      assert kept + [args[n]] + args[n + 1..] == kept + args[n..];
    } else {
      assert kept + args[n..] == kept;
    }
  }

  lemma TargetTaken(src: Source)
    requires Writable(src)
    ensures TakeTarget(WrittenArgs(src), 0, [], None) == (src.ccArgs, src.target)
  {
    var args := WrittenArgs(src);
    if src.target.Some? {
      assert args[0] == "-o" && args[1] == src.target.value;
      NoTarget(args, 2, [], src.target);
      assert args[2..] == src.ccArgs;
    } else {
      NoTarget(args, 0, [], None);
      assert args[0..] == src.ccArgs;
    }
    assert [] + src.ccArgs == src.ccArgs;
  }

  /** What the format restores: no save file, and the directory "." as none. */
  function Restored(src: Source): Source {
    src.(savefile := None, directory := if src.directory == Some(".") then None else src.directory)
  }

  /** Reading a source line back gives the source that was written, as far as the format restores it. */
  lemma SourceRestored(src: Source)
    requires Writable(src)
    ensures forall st: Loading ::
              LoadLine(st, ParseLine(SourceText(src))) == Some(LoadSource(st, Restored(src)))
  {
    SourceTextLine(src);
    TargetTaken(src);
    DecimalRoundTrip(src.compileTime);
  }

  // --- The whole table ---------------------------------------------------------------------------

  /** What the format keeps: inline symbols, and defined or zapped ones whose object has a source. */
  ghost predicate Persisted(w: World, i: nat) {
    var sym := SymAt(w, i);
    sym.state == Inline || ((sym.state == Defined || sym.state == Zapped) && SourceOf(w, sym.obj).Some?)
  }

  ghost function Kept(w: World, vector: seq<nat>, k: nat): seq<nat>
    requires k <= |vector|
  {
    if k == 0 then []
    else Kept(w, vector, k - 1) + if Persisted(w, vector[k - 1]) then [vector[k - 1]] else []
  }

  /** The source of a symbol's object, as it is after a round trip. */
  ghost function SourceView(w: World, obj: Option<nat>): Option<Source> {
    if SourceOf(w, obj).Some? then Some(Restored(SrcAt(w, SourceOf(w, obj).value))) else None
  }

  ghost function HeldSource(w: World, obj: Option<nat>): Option<Source> {
    if SourceOf(w, obj).Some? then Some(SrcAt(w, SourceOf(w, obj).value)) else None
  }

  /** Symbol t of v is what became of symbol i of w. */
  ghost predicate CopyOf(w: World, i: nat, v: World, t: nat) {
    && SymAt(v, t).name == SymAt(w, i).name
    && SymAt(v, t).state == SymAt(w, i).state
    && (SymAt(w, i).state == Inline ==> SymAt(v, t).obj == None)
    && (SymAt(w, i).state != Inline ==> HeldSource(v, SymAt(v, t).obj) == SourceView(w, SymAt(w, i).obj))
  }

  ghost predicate Copied(w: World, kept: seq<nat>, v: World) {
    && Wf(v) && |v.syms| == |kept|
    && forall t {:trigger kept[t]} | 0 <= t < |kept| :: CopyOf(w, kept[t], v, t)
  }

  /** The object being loaded carries the source of the object being dumped. */
  ghost predicate InStep(w: World, d: Option<nat>, st: Loading) {
    && (st.obj.Some? ==> st.obj.value < |st.w.objs|)
    && (SourceOf(w, d).Some? ==> HeldSource(st.w, st.obj) == SourceView(w, d))
  }

  /** Every flushed symbol has a name that can start a line, and a source, if any, that can be written. */
  ghost predicate Dumpable(w: World, vector: seq<nat>) {
    forall x | 0 <= x < |vector| ::
      && (Persisted(w, vector[x]) ==> LineName(SymAt(w, vector[x]).name))
      && (SourceOf(w, SymAt(w, vector[x]).obj).Some? ==> Writable(SrcAt(w, SourceOf(w, SymAt(w, vector[x]).obj).value)))
  }

  lemma {:induction false} LoadPrefix(st: Loading, a: seq<string>, b: seq<string>, k: nat)
    requires k <= |a|
    ensures Load(st, a + b, k) == Load(st, a, k)
  {
    if k > 0 {
      LoadPrefix(st, a, b, k - 1);
    }
  }

  lemma LoadOne(st: Loading, a: seq<string>, line: string)
    ensures Load(st, a + [line], |a| + 1)
            == match Load(st, a, |a|) case None => None case Some(before) => LoadLine(before, ParseLine(line))
  {
    LoadPrefix(st, a, [line], |a|);
  }

  /** Reading the source line of the object the dump has come to. */
  lemma SourceStep(w: World, kept: seq<nat>, st: Loading, obj: Option<nat>)
    requires Copied(w, kept, st.w) && SourceOf(w, obj).Some?
    requires Writable(SrcAt(w, SourceOf(w, obj).value))
    ensures var r := LoadLine(st, ParseLine(SourceText(SrcAt(w, SourceOf(w, obj).value))));
            r.Some? && Copied(w, kept, r.value.w) && InStep(w, obj, r.value)
  {
    var src := SrcAt(w, SourceOf(w, obj).value);
    SourceRestored(src);
    var r := LoadSource(st, Restored(src));
    forall t {:trigger kept[t]} | 0 <= t < |kept| ensures CopyOf(w, kept[t], r.w, t) {
      assert CopyOf(w, kept[t], st.w, t);
      assert HeldSource(r.w, SymAt(st.w, t).obj) == HeldSource(st.w, SymAt(st.w, t).obj);
    }
  }

  ghost function TagOf(state: SymState): char {
    if state == Inline then 'I' else if state == Zapped then 'Z' else 'G'
  }

  /** Reading the line of a symbol that was not read before. */
  lemma SymbolStep(w: World, kept: seq<nat>, st: Loading, i: nat)
    requires Copied(w, kept, st.w) && InStep(w, SymAt(w, i).obj, st)
    requires Persisted(w, i) && LineName(SymAt(w, i).name)
    requires forall t | 0 <= t < |kept| :: SymAt(w, kept[t]).name != SymAt(w, i).name
    ensures var r := LoadLine(st, ParseLine(SymbolText(SymAt(w, i).name, TagOf(SymAt(w, i).state))));
            r.Some? && Copied(w, kept + [i], r.value.w) && InStep(w, SymAt(w, i).obj, r.value)
  {
    var sym := SymAt(w, i);
    SymbolLine(sym.name, TagOf(sym.state));
    var r := LoadSymbol(st, sym.name, TagOf(sym.state));
    forall t | 0 <= t < |st.w.syms| ensures st.w.syms[t].name != sym.name {
      assert CopyOf(w, kept[t], st.w, t);
    }
    forall t {:trigger (kept + [i])[t]} | 0 <= t < |kept + [i]| ensures CopyOf(w, (kept + [i])[t], r.w, t) {
      if t < |kept| {
        assert CopyOf(w, kept[t], st.w, t);
        assert HeldSource(r.w, SymAt(st.w, t).obj) == HeldSource(st.w, SymAt(st.w, t).obj);
      }
    }
  }

  const FRESH := Loading(EMPTY_WORLD, None)

  lemma {:induction false} KeptEarlier(w: World, vector: seq<nat>, k: nat, t: nat)
    requires k <= |vector| && t < |Kept(w, vector, k)|
    ensures exists x :: 0 <= x < k && vector[x] == Kept(w, vector, k)[t] && Persisted(w, vector[x])
  {
    if t < |Kept(w, vector, k - 1)| {
      KeptEarlier(w, vector, k - 1, t);
      var x :| 0 <= x < k - 1 && vector[x] == Kept(w, vector, k - 1)[t] && Persisted(w, vector[x]);
    } else {
      assert vector[k - 1] == Kept(w, vector, k)[t];
    }
  }

  /** The vector lists some symbols of a table in which no two symbols have the same name. */
  ghost predicate Listing(w: World, vector: seq<nat>) {
    UniqueNames(w) && Distinct(vector) && forall x | 0 <= x < |vector| :: vector[x] < |w.syms|
  }

  lemma NewName(w: World, vector: seq<nat>, k: nat)
    requires Listing(w, vector) && k < |vector|
    ensures forall t | 0 <= t < |Kept(w, vector, k)| ::
              SymAt(w, Kept(w, vector, k)[t]).name != SymAt(w, vector[k]).name
  {
    forall t | 0 <= t < |Kept(w, vector, k)|
      ensures SymAt(w, Kept(w, vector, k)[t]).name != SymAt(w, vector[k]).name
    {
      KeptEarlier(w, vector, k, t);
      var x :| 0 <= x < k && vector[x] == Kept(w, vector, k)[t];
      assert vector[x] != vector[k];
    }
  }

  /** The lines read back into a table that is in step with object obj. */
  ghost predicate Reads(w: World, kept: seq<nat>, lines: seq<string>, obj: Option<nat>) {
    var r := Load(FRESH, lines, |lines|);
    r.Some? && Copied(w, kept, r.value.w) && InStep(w, obj, r.value)
  }

  lemma ReadsOne(w: World, kept: seq<nat>, kept': seq<nat>, lines: seq<string>, line: string,
                 obj: Option<nat>, obj': Option<nat>)
    requires Reads(w, kept, lines, obj)
    requires var r := LoadLine(Load(FRESH, lines, |lines|).value, ParseLine(line));
             r.Some? && Copied(w, kept', r.value.w) && InStep(w, obj', r.value)
    ensures Reads(w, kept', lines + [line], obj')
  {
    LoadOne(FRESH, lines, line);
  }

  lemma SourceRead(w: World, kept: seq<nat>, lines: seq<string>, last: Option<nat>, obj: Option<nat>)
    requires Reads(w, kept, lines, last)
    requires SourceOf(w, obj).Some? ==> Writable(SrcAt(w, SourceOf(w, obj).value))
    ensures Reads(w, kept, lines + SourceLines(w, last, obj), obj)
  {
    if obj != last && SourceOf(w, obj).Some? {
      SourceStep(w, kept, Load(FRESH, lines, |lines|).value, obj);
      ReadsOne(w, kept, kept, lines, SourceText(SrcAt(w, SourceOf(w, obj).value)), last, obj);
    } else {
      assert lines + SourceLines(w, last, obj) == lines;
    }
  }

  lemma SymbolRead(w: World, kept: seq<nat>, lines: seq<string>, i: nat)
    requires Reads(w, kept, lines, SymAt(w, i).obj)
    requires Persisted(w, i) ==> LineName(SymAt(w, i).name)
    requires forall t | 0 <= t < |kept| :: SymAt(w, kept[t]).name != SymAt(w, i).name
    ensures Reads(w, kept + (if Persisted(w, i) then [i] else []), lines + SymbolLines(w, SymAt(w, i)),
                  SymAt(w, i).obj)
  {
    var sym := SymAt(w, i);
    if Persisted(w, i) {
      SymbolStep(w, kept, Load(FRESH, lines, |lines|).value, i);
      ReadsOne(w, kept, kept + [i], lines, SymbolText(sym.name, TagOf(sym.state)), sym.obj, sym.obj);
    } else {
      assert lines + SymbolLines(w, sym) == lines && kept + [] == kept;
    }
  }

  lemma {:induction false} DumpReadBack(w: World, vector: seq<nat>, k: nat)
    requires Listing(w, vector) && Dumpable(w, vector) && k <= |vector|
    ensures Reads(w, Kept(w, vector, k), Dump(w, vector, k).lines, Dump(w, vector, k).obj)
  {
    if k > 0 {
      DumpReadBack(w, vector, k - 1);
      NewName(w, vector, k - 1);
      var d, kept, i := Dump(w, vector, k - 1), Kept(w, vector, k - 1), vector[k - 1];
      SourceRead(w, kept, d.lines, d.obj, SymAt(w, i).obj);
      SymbolRead(w, kept, d.lines + SourceLines(w, d.obj, SymAt(w, i).obj), i);
    }
  }

  lemma {:induction false} KeptAll(w: World, vector: seq<nat>, k: nat, x: nat)
    requires x < k <= |vector| && Persisted(w, vector[x])
    ensures vector[x] in Kept(w, vector, k)
  {
    if x < k - 1 {
      KeptAll(w, vector, k - 1, x);
    }
  }

  /** The vector holds exactly the flushed symbols. */
  ghost predicate FlushVector(w: World, vector: seq<nat>) {
    && Distinct(vector)
    && (forall x | 0 <= x < |vector| :: vector[x] < |w.syms| && IsFlushed(w.syms[vector[x]]))
    && (forall i | 0 <= i < |w.syms| && IsFlushed(w.syms[i]) :: i in vector)
  }

  lemma {:induction false} KeptDistinct(w: World, vector: seq<nat>, k: nat)
    requires Distinct(vector) && k <= |vector|
    ensures Distinct(Kept(w, vector, k))
  {
    if k > 0 {
      KeptDistinct(w, vector, k - 1);
      var kept := Kept(w, vector, k - 1);
      forall t | 0 <= t < |kept| ensures kept[t] != vector[k - 1] {
        KeptEarlier(w, vector, k - 1, t);
      }
    }
  }

  /** Symbol t of v came from a symbol of w that the format keeps. */
  ghost predicate HasOrigin(w: World, v: World, t: nat) {
    exists i: nat :: i < |w.syms| && Persisted(w, i) && CopyOf(w, i, v, t)
  }

  /** v is found to hold what became of symbol i of w. */
  ghost predicate FoundAgain(w: World, v: World, i: nat) {
    var t := Find(v.syms, SymAt(w, i).name);
    t >= 0 && CopyOf(w, i, v, t)
  }

  lemma CopiedNames(w: World, vector: seq<nat>, kept: seq<nat>, v: World)
    requires Listing(w, vector) && kept == Kept(w, vector, |vector|) && Copied(w, kept, v)
    ensures UniqueNames(v)
  {
    KeptDistinct(w, vector, |vector|);
    forall t, u | 0 <= t < u < |v.syms| ensures v.syms[t].name != v.syms[u].name {
      KeptEarlier(w, vector, |vector|, t);
      KeptEarlier(w, vector, |vector|, u);
      assert CopyOf(w, kept[t], v, t) && CopyOf(w, kept[u], v, u);
      assert kept[t] != kept[u];
    }
  }

  lemma CopiedFound(w: World, vector: seq<nat>, kept: seq<nat>, v: World, x: nat)
    requires Listing(w, vector) && kept == Kept(w, vector, |vector|) && Copied(w, kept, v)
    requires x < |vector| && Persisted(w, vector[x])
    ensures FoundAgain(w, v, vector[x])
  {
    KeptAll(w, vector, |vector|, x);
    var t :| 0 <= t < |kept| && kept[t] == vector[x];
    assert CopyOf(w, kept[t], v, t);
    CopiedNames(w, vector, kept, v);
    assert v.syms[t].name == SymAt(w, vector[x]).name;
  }

  /** Dumping a table and loading the text into an empty one restores every inline symbol's name and state,
      and of every defined or zapped symbol whose object has a source, its name, its state and that source;
      and it adds nothing else. The order of the vector does not matter. */
  lemma DatabaseRoundTrip(w: World, vector: seq<nat>)
    requires Wf(w) && UniqueNames(w) && FlushVector(w, vector) && Dumpable(w, vector)
    ensures var lines := Dump(w, vector, |vector|).lines;
            && Load(FRESH, lines, |lines|).Some?
            && var v := Load(FRESH, lines, |lines|).value.w;
               && UniqueNames(v)
               && (forall i | 0 <= i < |w.syms| && Persisted(w, i) :: FoundAgain(w, v, i))
               && (forall t | 0 <= t < |v.syms| :: HasOrigin(w, v, t))
  {
    var n := |vector|;
    DumpReadBack(w, vector, n);
    var lines, kept := Dump(w, vector, n).lines, Kept(w, vector, n);
    var v := Load(FRESH, lines, |lines|).value.w;
    CopiedNames(w, vector, kept, v);
    forall t | 0 <= t < |v.syms| ensures HasOrigin(w, v, t) {
      KeptEarlier(w, vector, n, t);
      assert CopyOf(w, kept[t], v, t);
    }
    forall i | 0 <= i < |w.syms| && Persisted(w, i) ensures FoundAgain(w, v, i) {
      assert i in vector;
      var x :| 0 <= x < n && vector[x] == i;
      CopiedFound(w, vector, kept, v, x);
    }
  }

  // --- Collecting the vector ---------------------------------------------------------------------

  /** The flushed symbols among the first k of the order. */
  ghost function Flushed(w: World, order: seq<nat>, k: nat): seq<nat>
    requires k <= |order|
  {
    if k == 0 then []
    else Flushed(w, order, k - 1) + if IsFlushed(SymAt(w, order[k - 1])) then [order[k - 1]] else []
  }

  /** The first walk counts them and the second collects them. */
  lemma {:induction false} FlushRun(w: World, order: seq<nat>, k: nat)
    requires k <= |order|
    ensures Run(State(w, Flush(None, 0), false), order, k) == State(w, Flush(None, |Flushed(w, order, k)|), false)
    ensures Run(State(w, Flush(Some([]), 0), false), order, k)
            == State(w, Flush(Some(Flushed(w, order, k)), |Flushed(w, order, k)|), false)
  {
    if k > 0 {
      FlushRun(w, order, k - 1);
      var before := Flushed(w, order, k - 1);
      assert before + [] == before;
    }
  }

  lemma {:induction false} FlushedMembers(w: World, order: seq<nat>, k: nat)
    requires k <= |order| && Distinct(order)
    ensures Distinct(Flushed(w, order, k))
    ensures forall i: nat :: i in Flushed(w, order, k) <==> i in order[..k] && IsFlushed(SymAt(w, i))
  {
    if k > 0 {
      FlushedMembers(w, order, k - 1);
      assert order[..k] == order[..k - 1] + [order[k - 1]];
      assert order[k - 1] !in order[..k - 1];
    }
  }

  lemma FlushedIsVector(w: World, order: seq<nat>)
    requires Once(order, |w.syms|)
    ensures FlushVector(w, Flushed(w, order, |order|))
    ensures forall i: nat :: i in Flushed(w, order, |order|) <==>
              i < |w.syms| && (w.syms[i].state == Inline
                               || (w.syms[i].obj.Some? && (w.syms[i].state == Defined || w.syms[i].state == Zapped)))
  {
    var v := Flushed(w, order, |order|);
    FlushedMembers(w, order, |order|);
    assert order[..|order|] == order;
    forall x | 0 <= x < |v| ensures v[x] < |w.syms| && IsFlushed(w.syms[v[x]]) {
      assert v[x] in v;
    }
  }

  /** Sorting keeps it. */
  lemma FlushVectorPermuted(w: World, a: seq<nat>, b: seq<nat>)
    requires FlushVector(w, a) && multiset(a) == multiset(b)
    ensures FlushVector(w, b)
  {
    DistinctByCount(a);
    forall x, y | 0 <= x < y < |b| ensures b[x] != b[y] {
      assert multiset(a)[b[x]] <= 1;
      if b[x] == b[y] {
        TwoPlaces(b, x, y);
      }
    }
    forall x | 0 <= x < |b| ensures b[x] < |w.syms| && IsFlushed(w.syms[b[x]]) {
      assert b[x] in multiset(a);
    }
    forall i | 0 <= i < |w.syms| && IsFlushed(w.syms[i]) ensures i in b {
      assert i in multiset(a);
    }
  }

  lemma {:induction false} DistinctByCount(a: seq<nat>)
    requires Distinct(a)
    ensures forall x :: multiset(a)[x] <= 1
  {
    if a != [] {
      var n := |a| - 1;
      DistinctByCount(a[..n]);
      assert a == a[..n] + [a[n]];
      assert a[n] !in a[..n];
    }
  }

  lemma TwoPlaces(b: seq<nat>, x: nat, y: nat)
    requires x < y < |b| && b[x] == b[y]
    ensures multiset(b)[b[x]] >= 2
  {
    assert b == b[..y] + b[y..];
    assert b[x] in multiset(b[..y]) && b[y] in multiset(b[y..]) by {
      assert b[x] == b[..y][x] && b[y] == b[y..][0];
    }
  }

  // --- The file ----------------------------------------------------------------------------------

  ghost predicate OneLine(s: string) {
    forall i | 0 <= i < |s| :: s[i] != '\n'
  }

  lemma {:induction false} NextLine(line: string, rest: string)
    requires OneLine(line)
    ensures LineOf(line + ("\n" + rest)) == line && AfterLine(line + ("\n" + rest)) == "\n" + rest
  {
    if line == "" {
      assert line + ("\n" + rest) == "\n" + rest;
    } else {
      assert (line + ("\n" + rest))[1..] == line[1..] + ("\n" + rest);
      NextLine(line[1..], rest);
    }
  }

  lemma {:induction false} LinesOfText(lines: seq<string>)
    requires forall i | 0 <= i < |lines| :: OneLine(lines[i])
    ensures FileLines(FileText(lines)) == lines
  {
    if lines != [] {
      NextLine(lines[0], FileText(lines[1..]));
      LinesOfText(lines[1..]);
      assert ("\n" + FileText(lines[1..]))[1..] == FileText(lines[1..]);
    }
  }

  lemma {:induction false} LineParts(t: string)
    ensures t == LineOf(t) + AfterLine(t) && OneLine(LineOf(t)) && (AfterLine(t) != "" ==> AfterLine(t)[0] == '\n')
  {
    if t != "" && t[0] != '\n' {
      LineParts(t[1..]);
      assert t == [t[0]] + (LineOf(t[1..]) + AfterLine(t[1..]));
    }
  }

  lemma LineThenRest(line: string, read: string, rest: string)
    ensures line + ("\n" + (read + rest)) == (line + ("\n" + read)) + rest
  {
  }

  lemma SplitAt(read: string, rest: string)
    ensures read <= read + rest && (read + rest)[|read|..] == rest
  {
  }

  /** The lines read from any text are all of it up to its last newline. */
  lemma {:induction false} TextIsLines(t: string)
    ensures var read := FileText(FileLines(t)); read <= t && OneLine(t[|read|..])
    decreases |t|
  {
    hide OneLine, LineOf, AfterLine;
    LineParts(t);
    if AfterLine(t) != "" {
      var line, rest := LineOf(t), AfterLine(t)[1..];
      TextIsLines(rest);
      var more := FileText(FileLines(rest));
      assert FileLines(t) == [line] + FileLines(rest) && FileLines(t)[1..] == FileLines(rest);
      assert rest == more + rest[|more|..] && AfterLine(t) == "\n" + rest;
      LineThenRest(line, more, rest[|more|..]);
      SplitAt(line + ("\n" + more), rest[|more|..]);
    } else {
      assert LineOf(t) + "" == LineOf(t) && t[0..] == t;
    }
  }

  lemma {:induction false} BlanksOneLine(args: seq<string>)
    requires forall i | 0 <= i < |args| :: Word(args[i])
    ensures OneLine(Blanks(args))
  {
    if args != [] {
      BlanksOneLine(args[1..]);
    }
  }

  lemma SourceTextOneLine(src: Source)
    requires Writable(src)
    ensures OneLine(SourceText(src))
  {
    BlanksOneLine(WrittenArgs(src));
    DecimalRoundTrip(src.compileTime);
    assert OneLine(TimeText(src));
    assert OneLine(SaveText(src));
    assert OneLine(FieldsText(src));
  }

  lemma StepOneLine(w: World, d: Dumping, i: nat)
    requires forall s | s in d.lines :: OneLine(s)
    requires SourceOf(w, SymAt(w, i).obj).Some? ==> Writable(SrcAt(w, SourceOf(w, SymAt(w, i).obj).value))
    requires Persisted(w, i) ==> LineName(SymAt(w, i).name)
    ensures forall s | s in DumpStep(w, d, i).lines :: OneLine(s)
  {
    hide Writable;
    var sym := SymAt(w, i);
    if SourceOf(w, sym.obj).Some? {
      SourceTextOneLine(SrcAt(w, SourceOf(w, sym.obj).value));
    }
  }

  lemma {:induction false} DumpOneLine(w: World, vector: seq<nat>, k: nat)
    requires Dumpable(w, vector) && k <= |vector|
    ensures forall s | s in Dump(w, vector, k).lines :: OneLine(s)
  {
    hide OneLine, Writable, LineName, Persisted, DumpStep;
    if k > 0 {
      DumpOneLine(w, vector, k - 1);
      StepOneLine(w, Dump(w, vector, k - 1), vector[k - 1]);
    }
  }

  lemma {:induction false} LineIsOneLine(t: string)
    ensures OneLine(LineOf(t))
  {
    if t != "" && t[0] != '\n' {
      LineIsOneLine(t[1..]);
    }
  }

  lemma {:induction false} FileLinesAreOneLine(t: string)
    ensures forall s | s in FileLines(t) :: OneLine(s)
    decreases |t|
  {
    hide OneLine;
    if AfterLine(t) != "" {
      LineIsOneLine(t);
      FileLinesAreOneLine(AfterLine(t)[1..]);
    }
  }

  /** The lines read from a file are those that were written if and only if none of them has a newline. */
  lemma FileRoundTrip(lines: seq<string>)
    ensures FileLines(FileText(lines)) == lines <==> forall s | s in lines :: OneLine(s)
  {
    if forall s | s in lines :: OneLine(s) {
      LinesOfText(lines);
    } else {
      FileLinesAreOneLine(FileText(lines));
    }
  }

  /** So the round trip holds for the text of a dump. */
  lemma DumpIsReread(w: World, vector: seq<nat>)
    requires Dumpable(w, vector)
    ensures var lines := Dump(w, vector, |vector|).lines; FileLines(FileText(lines)) == lines
  {
    DumpOneLine(w, vector, |vector|);
    FileRoundTrip(Dump(w, vector, |vector|).lines);
  }
}
