/** The text data base: how the table is written to a file and read back, line by line. */
module GtsDatabase {
  import opened CText
  import opened GtsWorld
  import opened GtsPasses

  // --- Reading one line --------------------------------------------------------------------------
  // A pointer into a line is what is left of the line from there on.

  /** The word t starts with, and what comes after it. */
  function WordOf(t: string): string {
    if t == "" || IsSpace(t[0]) then "" else [t[0]] + WordOf(t[1..])
  }

  function RestOf(t: string): string {
    if t == "" || IsSpace(t[0]) then t else RestOf(t[1..])
  }

  /** What a line says. Overrun is a line that is too short for its kind: the scanner steps past the
      terminator and what it reads there is not the line's. */
  datatype Line =
    | Comment
    | Symbol(name: string, tag: char)
    | SourceLine(name: string, directory: string, savefile: string, ctime: string, args: seq<string>)
    | OldStyle(name: string)
    | Overrun

  const MAX_ARGS := 511

  /** The blank-separated arguments of t, after those already found. */
  function Args(t: string, found: seq<string>): Option<seq<string>>
    decreases |t|
  {
    if t == "" then (if |found| <= MAX_ARGS then Some(found) else None)
    else if Trim(t) == "" then None
    else
      RestShorter(Trim(t));
      var found' := found + [WordOf(Trim(t))];
      if RestOf(Trim(t)) == "" then (if |found'| <= MAX_ARGS then Some(found') else None)
      else Args(RestOf(Trim(t))[1..], found')
  }

  lemma RestShorter(t: string)
    ensures |RestOf(t)| <= |t|
  {
  }

  /** The fields after the tag of a source line; each ends at the next blank, whatever precedes it. */
  function SourceFields(name: string, t: string): Line {
    var r1 := RestOf(t);
    if r1 == "" then Overrun
    else
      var r2 := RestOf(r1[1..]);
      if r2 == "" then Overrun
      else
        var r3 := RestOf(r2[1..]);
        if r3 == "" then Overrun
        else match Args(r3[1..], [])
          case None => Overrun
          case Some(args) => SourceLine(name, WordOf(t), WordOf(r1[1..]), WordOf(r2[1..]), args)
  }

  /** The tag and whatever it calls for. */
  function TagFields(name: string, t: string): Line {
    if t == "" then OldStyle(name)
    else if t[0] == 'G' || t[0] == 'Z' || t[0] == 'I' then Symbol(name, t[0])
    else if t[0] == 'F' then (if RestOf(t) == "" then Overrun else SourceFields(name, RestOf(t)[1..]))
    else OldStyle(name)
  }

  /** One line, without its newline. */
  function ParseLine(s: string): Line {
    if s != "" && s[0] == '!' then Comment
    else
      var t := Trim(s);
      if RestOf(t) == "" then Overrun else TagFields(WordOf(t), Trim(RestOf(t)[1..]))
  }

  // --- Loading -----------------------------------------------------------------------------------

  /** EhSourceNew takes "-o target" out of the arguments; the last one wins. */
  function TakeTarget(args: seq<string>, n: nat, kept: seq<string>, target: Option<string>)
    : (seq<string>, Option<string>)
    decreases |args| - n
  {
    if n >= |args| then (kept, target)
    else if args[n] == "-o" && n + 1 < |args| then TakeTarget(args, n + 2, kept, Some(args[n + 1]))
    else TakeTarget(args, n + 1, kept + [args[n]], target)
  }

  function NewSource(name: string, args: seq<string>, directory: Option<string>, compileTime: int): Source {
    var t := TakeTarget(args, 0, [], None);
    Source(name, directory, t.0, None, compileTime, t.1)
  }

  /** The table being loaded and the object of the latest source line. */
  datatype Loading = Loading(w: World, obj: Option<nat>)

  function TagState(tag: char): SymState {
    if tag == 'G' then Defined else if tag == 'I' then Inline else Zapped
  }

  function LoadSymbol(st: Loading, name: string, tag: char): Loading {
    var i := Find(st.w.syms, name);
    if i >= 0 then st.(w := SetState(st.w, i, TagState(tag)))
    else st.(w := Insert(st.w, NewSym(name, if tag == 'I' then None else st.obj, TagState(tag))))
  }

  function LoadSource(st: Loading, src: Source): Loading {
    Loading(st.w.(srcs := st.w.srcs + [src], objs := st.w.objs + [NewObject(None, Some(|st.w.srcs|))]),
            Some(|st.w.objs|))
  }

  function LoadOld(st: Loading, name: string): Loading {
    var i := Find(st.w.syms, name);
    if i >= 0 then st.(w := SetState(st.w, i, Zapped)) else st
  }

  /** None when the line is overrun. */
  function LoadLine(st: Loading, line: Line): Option<Loading> {
    match line
    case Comment => Some(st)
    case Symbol(name, tag) => Some(LoadSymbol(st, name, tag))
    case SourceLine(name, directory, _, ctime, args) =>
      Some(LoadSource(st, NewSource(name, args, if directory == "." then None else Some(directory), Atoi(ctime))))
    case OldStyle(name) => Some(LoadOld(st, name))
    case Overrun => None
  }

  function Load(st: Loading, lines: seq<string>, k: nat): Option<Loading>
    requires k <= |lines|
  {
    if k == 0 then Some(st)
    else match Load(st, lines, k - 1)
      case None => None
      case Some(before) => LoadLine(before, ParseLine(lines[k - 1]))
  }

  // --- Dumping -----------------------------------------------------------------------------------

  function Blanks(args: seq<string>): string {
    if args == [] then "" else " " + (args[0] + Blanks(args[1..]))
  }

  /** The arguments as written, with the target first. */
  function WrittenArgs(src: Source): seq<string> {
    (if src.target.Some? then ["-o", src.target.value] else []) + src.ccArgs
  }

  function Field(s: Option<string>): string {
    if s.Some? then s.value else "."
  }

  // EhSourceFpWrite, without the newline: the fields after the tag from the last to the first, then the
  // whole line.

  function TimeText(src: Source): string {
    Decimal(src.compileTime) + Blanks(WrittenArgs(src))
  }

  function SaveText(src: Source): string {
    Field(src.savefile) + (" " + TimeText(src))
  }

  function FieldsText(src: Source): string {
    Field(src.directory) + (" " + SaveText(src))
  }

  function SourceText(src: Source): string {
    src.name + (" " + ("F" + (" " + FieldsText(src))))
  }

  function SymbolText(name: string, tag: char): string {
    name + [' ', tag]
  }

  /** Where the dump is: the object last met and the lines written so far. */
  datatype Dumping = Dumping(obj: Option<nat>, lines: seq<string>)

  function SrcAt(w: World, s: nat): Source {
    if s < |w.srcs| then w.srcs[s] else Source("", None, [], None, 0, None)
  }

  /** The source line is written whenever the object changes. */
  function SourceLines(w: World, last: Option<nat>, obj: Option<nat>): seq<string> {
    if obj != last && SourceOf(w, obj).Some? then [SourceText(SrcAt(w, SourceOf(w, obj).value))] else []
  }

  /** A symbol that is not inline is written only when its object has a source. */
  function SymbolLines(w: World, sym: Sym): seq<string> {
    if sym.state == Inline then [SymbolText(sym.name, 'I')]
    else if SourceOf(w, sym.obj).Some? && sym.state == Zapped then [SymbolText(sym.name, 'Z')]
    else if SourceOf(w, sym.obj).Some? && sym.state == Defined then [SymbolText(sym.name, 'G')]
    else []
  }

  function DumpStep(w: World, st: Dumping, i: nat): Dumping {
    var sym := SymAt(w, i);
    Dumping(sym.obj, st.lines + SourceLines(w, st.obj, sym.obj) + SymbolLines(w, sym))
  }

  function Dump(w: World, vector: seq<nat>, k: nat): Dumping
    requires k <= |vector|
  {
    if k == 0 then Dumping(None, []) else DumpStep(w, Dump(w, vector, k - 1), vector[k - 1])
  }

  /** flush_compare: symbols without an object first and by name, then objects without a source, then by
      the address of the source. */
  function FlushCompare(w: World, address: nat -> int, i: nat, j: nat): int {
    var a, b := SymAt(w, i), SymAt(w, j);
    if a.obj.None? && b.obj.Some? then -1
    else if a.obj.Some? && b.obj.None? then 1
    else if a.obj.None? then Sign(StrCmp(a.name, b.name))
    else
      var s, t := SourceOf(w, a.obj), SourceOf(w, b.obj);
      if s.None? && t.Some? then -1
      else if s.Some? && t.None? then 1
      else if s == t then 0
      else if address(s.value) < address(t.value) then -1
      else if address(s.value) > address(t.value) then 1
      else Sign(StrCmp(a.name, b.name))
  }

  // --- The file ----------------------------------------------------------------------------------

  function FileText(lines: seq<string>): string {
    if lines == [] then "" else lines[0] + ("\n" + FileText(lines[1..]))
  }

  function LineOf(t: string): string {
    if t == "" || t[0] == '\n' then "" else [t[0]] + LineOf(t[1..])
  }

  function AfterLine(t: string): (r: string)
    ensures t != "" ==> |r| <= |t|
  {
    if t == "" || t[0] == '\n' then t else AfterLine(t[1..])
  }

  /** safe_fgets, called until it returns NULL: lines of any length; a last line without a newline is lost. */
  function FileLines(t: string): seq<string>
    decreases |t|
  {
    if AfterLine(t) == "" then [] else [LineOf(t)] + FileLines(AfterLine(t)[1..])
  }
}
