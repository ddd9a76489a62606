/** What loading lines does to a table that may already have symbols: to the symbol of each name, and to the records. */
module GtsLoading {
  import opened CText
  import opened GtsWorld
  import opened GtsDatabase
  import opened GtsLines

  // --- What the lines say ------------------------------------------------------------------------

  /** The state that a line gives to the symbol of that name. */
  ghost function Says(line: Line, name: string): Option<SymState> {
    match line
    case Symbol(n, tag) =>
      if n != name then None
      else if tag == 'G' then Some(Defined)
      else if tag == 'I' then Some(Inline)
      else Some(Zapped)
    case OldStyle(n) => if n == name then Some(Zapped) else None
    case _ => None
  }

  /** The last of the first k lines that names the symbol. */
  ghost function LastSaid(lines: seq<string>, k: nat, name: string): Option<SymState>
    requires k <= |lines|
  {
    if k == 0 then None
    else if Says(ParseLine(lines[k - 1]), name).Some? then Says(ParseLine(lines[k - 1]), name)
    else LastSaid(lines, k - 1, name)
  }

  ghost predicate Lists(line: Line, name: string) {
    line.Symbol? && line.name == name
  }

  /** The first of the first k lines that lists the symbol in the new style. */
  ghost function FirstListed(lines: seq<string>, k: nat, name: string): Option<nat>
    requires k <= |lines|
    ensures var x := FirstListed(lines, k, name);
            x.Some? ==> x.value < k && Lists(ParseLine(lines[x.value]), name)
  {
    if k == 0 then None
    else if FirstListed(lines, k - 1, name).Some? then FirstListed(lines, k - 1, name)
    else if Lists(ParseLine(lines[k - 1]), name) then Some(k - 1)
    else None
  }

  /** How many of the first k lines are source lines. */
  ghost function SourcesIn(lines: seq<string>, k: nat): nat
    requires k <= |lines|
  {
    if k == 0 then 0 else SourcesIn(lines, k - 1) + if ParseLine(lines[k - 1]).SourceLine? then 1 else 0
  }

  /** The record that a symbol listed in line k gets: that of the source line before it, or the one given. */
  ghost function Above(st: Loading, lines: seq<string>, k: nat): Option<nat>
    requires k <= |lines|
  {
    if SourcesIn(lines, k) == 0 then st.obj else Some(|st.w.objs| + SourcesIn(lines, k) - 1)
  }

  // --- Records -----------------------------------------------------------------------------------

  /** Each source line makes a source and a nameless record for it, in order; nothing else is allocated. */
  lemma {:induction false} RecordsLoaded(st: Loading, lines: seq<string>, k: nat)
    requires k <= |lines| && Load(st, lines, k).Some?
    ensures var r := Load(st, lines, k).value;
            && |r.w.objs| == |st.w.objs| + SourcesIn(lines, k) && |r.w.srcs| == |st.w.srcs| + SourcesIn(lines, k)
            && r.obj == Above(st, lines, k)
            && (forall o | 0 <= o < |st.w.objs| :: r.w.objs[o] == st.w.objs[o])
            && (forall s | 0 <= s < |st.w.srcs| :: r.w.srcs[s] == st.w.srcs[s])
            && (forall o | |st.w.objs| <= o < |r.w.objs| ::
                  r.w.objs[o] == Object(None, Some(o - |st.w.objs| + |st.w.srcs|), None, 0, 0))
  {
    hide ParseLine, NewSource;
    if k > 0 {
      RecordsLoaded(st, lines, k - 1);
      LineRecords(Load(st, lines, k - 1).value, ParseLine(lines[k - 1]));
    }
  }

  lemma LineRecords(st: Loading, line: Line)
    requires LoadLine(st, line).Some?
    ensures var r := LoadLine(st, line).value;
            if line.SourceLine? then
              && r.w.syms == st.w.syms && |r.w.srcs| == |st.w.srcs| + 1 && r.w.srcs[..|st.w.srcs|] == st.w.srcs
              && r.w.objs == st.w.objs + [Object(None, Some(|st.w.srcs|), None, 0, 0)] && r.obj == Some(|st.w.objs|)
            else r.w.objs == st.w.objs && r.w.srcs == st.w.srcs && r.obj == st.obj
  {
    hide NewSource;
  }

  // --- Symbols -----------------------------------------------------------------------------------

  /** The symbol of a name, and where it is. */
  datatype Entry = Absent | Present(place: nat, sym: Sym)

  ghost function EntryOf(w: World, name: string): Entry {
    var s := Find(w.syms, name);
    if s < 0 then Absent else Present(s, SymAt(w, s))
  }

  lemma StateEntry(w: World, i: nat, state: SymState, name: string)
    requires i < |w.syms| && i == Find(w.syms, w.syms[i].name)
    ensures var before := EntryOf(w, name);
            EntryOf(SetState(w, i, state), name)
            == if before.Present? && w.syms[i].name == name then before.(sym := before.sym.(state := state)) else before
  {
    FindSameNames(w.syms, SetState(w, i, state).syms, name);
  }

  lemma InsertEntry(w: World, s: Sym, name: string)
    requires Find(w.syms, s.name) < 0
    ensures EntryOf(Insert(w, s), name) == if s.name == name then Present(|w.syms|, s) else EntryOf(w, name)
  {
    FindAfterInsert(w.syms, s, name);
  }

  lemma LineEntry(st: Loading, line: Line, name: string)
    requires LoadLine(st, line).Some?
    ensures var before, after := EntryOf(st.w, name), EntryOf(LoadLine(st, line).value.w, name);
            after == if Says(line, name).None? then before
                     else if before.Present? then before.(sym := before.sym.(state := Says(line, name).value))
                     else if line.Symbol? then
                       Present(|st.w.syms|,
                               Sym(name, if line.tag == 'I' then None else st.obj, 0, 0, Says(line, name).value))
                     else Absent
  {
    match line
    case Symbol(n, tag) =>
      var i := Find(st.w.syms, n);
      if i >= 0 {
        StateEntry(st.w, i, TagState(tag), name);
      } else {
        InsertEntry(st.w, NewSym(n, if tag == 'I' then None else st.obj, TagState(tag)), name);
      }
    case OldStyle(n) =>
      var i := Find(st.w.syms, n);
      if i >= 0 {
        StateEntry(st.w, i, Zapped, name);
      }
    case _ =>
  }

  /** A symbol that is known keeps its place, its owner and its users, and has the state that the last line naming it
      says. */
  lemma {:induction false} KnownLoaded(st: Loading, lines: seq<string>, k: nat, name: string)
    requires k <= |lines| && Load(st, lines, k).Some? && Find(st.w.syms, name) >= 0
    ensures var i, v, said := Find(st.w.syms, name), Load(st, lines, k).value.w, LastSaid(lines, k, name);
            && Find(v.syms, name) == i
            && SymAt(v, i) == SymAt(st.w, i).(state := if said.Some? then said.value else SymAt(st.w, i).state)
  {
    hide ParseLine, LoadLine;
    if k > 0 {
      KnownLoaded(st, lines, k - 1, name);
      LineEntry(Load(st, lines, k - 1).value, ParseLine(lines[k - 1]), name);
      assert EntryOf(Load(st, lines, k).value.w, name).Present?;
    }
  }

  /** A symbol that is not known is in the table once a line lists it in the new style. It belongs to the record of the
      source line above that line, or to none if it is listed as inline, and has the state that the last line naming it
      says. */
  lemma {:induction false} UnknownLoaded(st: Loading, lines: seq<string>, k: nat, name: string)
    requires k <= |lines| && Load(st, lines, k).Some? && Find(st.w.syms, name) < 0
    ensures var v, first, said := Load(st, lines, k).value.w, FirstListed(lines, k, name), LastSaid(lines, k, name);
            && (Find(v.syms, name) >= 0 <==> first.Some?)
            && (first.Some? ==>
                  && Find(v.syms, name) >= |st.w.syms| && said.Some?
                  && var inline := ParseLine(lines[first.value]).tag == 'I';
                     SymAt(v, Find(v.syms, name))
                     == Sym(name, if inline then None else Above(st, lines, first.value), 0, 0, said.value))
  {
    hide ParseLine, LoadLine;
    if k > 0 {
      UnknownLoaded(st, lines, k - 1, name);
      RecordsLoaded(st, lines, k - 1);
      LoadGrows(st, lines, k - 1);
      LineEntry(Load(st, lines, k - 1).value, ParseLine(lines[k - 1]), name);
      assert EntryOf(Load(st, lines, k).value.w, name).Present? <==> FirstListed(lines, k, name).Some?;
    }
  }

  lemma {:induction false} LoadGrows(st: Loading, lines: seq<string>, k: nat)
    requires k <= |lines| && Load(st, lines, k).Some?
    ensures |st.w.syms| <= |Load(st, lines, k).value.w.syms|
  {
    hide ParseLine, LoadLine;
    if k > 0 {
      LoadGrows(st, lines, k - 1);
      LineGrows(Load(st, lines, k - 1).value, ParseLine(lines[k - 1]));
    }
  }

  lemma LineGrows(st: Loading, line: Line)
    requires LoadLine(st, line).Some?
    ensures |st.w.syms| <= |LoadLine(st, line).value.w.syms|
  {
    hide Find;
  }

  /** Loading succeeds unless a line is overrun. */
  lemma {:induction false} LoadSucceeds(st: Loading, lines: seq<string>, k: nat)
    requires k <= |lines|
    ensures Load(st, lines, k).Some? <==> forall x | 0 <= x < k :: !ParseLine(lines[x]).Overrun?
  {
    hide ParseLine;
    if k > 0 {
      LoadSucceeds(st, lines, k - 1);
    }
  }

  /** For instance a symbol that the command line has made static and the data base lists as global: it is global, and
      still has no owner, although a source line precedes it. */
  lemma ListedAgain()
    ensures var st := Loading(World([NewSym("f", None, Zapped)], [], []), None);
            var r := Load(st, ["a.c F . b 98 -o a.o", "f G"], 2);
            r.Some? && r.value.w.syms == [NewSym("f", None, Defined)] && |r.value.w.objs| == 1
  {
    hide ParseLine;
    FormatExample();
    var st, lines := Loading(World([NewSym("f", None, Zapped)], [], []), None), ["a.c F . b 98 -o a.o", "f G"];
    var mid := Load(st, lines, 1);
    assert Load(st, lines, 0) == Some(st) && mid == LoadLine(st, ParseLine(lines[0]));
    LineRecords(st, ParseLine(lines[0]));
    assert Find(mid.value.w.syms, "f") == 0;
  }
}
