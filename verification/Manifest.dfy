/** The manifest compiler's text: logical lines, macros, values, and the lines that are written back.
    A pointer into the text is what is left of the text from there on. */
module Manifest {
  import opened CText

  datatype Macro = Macro(name: string, values: seq<string>)

  // --- Logical lines: find_macro -----------------------------------------------------------------

  /** From the next newline on. */
  function ToNewline(t: string): (r: string)
    ensures |r| <= |t| && (r != "" ==> r[0] == '\n')
    ensures t != "" && t[0] != '\n' ==> |r| < |t|
  {
    if t == "" || t[0] == '\n' then t else ToNewline(t[1..])
  }

  /** Skips white space and comment lines. */
  function MacroStart(t: string): (r: string)
    ensures |r| <= |t| && (r != "" ==> !IsSpace(r[0]) && r[0] != '#')
    decreases |t|
  {
    var u := Trim(t);
    if u != "" && u[0] == '#' then MacroStart(ToNewline(u)) else u
  }

  /** What follows the first newline that is not continued, bs being the number of backslashes that only
      white space separates from here; None when the text ends first. */
  function MacroEnd(t: string, bs: nat): (r: Option<string>)
    ensures r.Some? ==> |r.value| < |t|
  {
    if t == "" then None
    else if t[0] == '\\' then MacroEnd(t[1..], bs + 1)
    else if t[0] == '\n' then (if bs == 0 then Some(t[1..]) else MacroEnd(t[1..], 0))
    else if !IsSpace(t[0]) then MacroEnd(t[1..], 0)
    else MacroEnd(t[1..], bs)
  }

  // --- Values: add_values ------------------------------------------------------------------------

  /** Where the search for a value ends: at the newline that ends the values, at the end of the text, or at
      a value, each as an offset. A value starts as many characters before the first other character as
      backslashes were counted, so its offset may be negative here. */
  datatype Scan = End(off: int) | Eof | Value(off: int)

  function Moved(r: Scan, n: int): Scan {
    match r
    case End(off) => End(off + n)
    case Eof => Eof
    case Value(off) => Value(off + n)
  }

  function FindStart(t: string, bs: nat): (r: Scan)
    ensures r.End? ==> 0 <= r.off < |t| && t[r.off] == '\n'
    ensures r.Value? ==> 0 - bs <= r.off < |t|
  {
    if t == "" then Eof
    else if t[0] == '\\' then Moved(FindStart(t[1..], bs + 1), 1)
    else if t[0] == '\n' then (if bs == 0 then End(0) else Moved(FindStart(t[1..], 0), 1))
    else if !IsSpace(t[0]) then Value(0 - bs)
    else Moved(FindStart(t[1..], bs), 1)
  }

  /** Only white space before the next newline. */
  predicate EndsLine(t: string) {
    t != "" && (t[0] == '\n' || (IsSpace(t[0]) && EndsLine(t[1..])))
  }

  /** value_length stops at white space, and at a backslash that ends its line. */
  predicate ValueStops(t: string) {
    t == "" || (t[0] == '\\' && EndsLine(t[1..])) || IsSpace(t[0])
  }

  function ValueOf(t: string): string {
    if ValueStops(t) then "" else [t[0]] + ValueOf(t[1..])
  }

  function AfterValue(t: string): (r: string)
    ensures |r| <= |t| && (!ValueStops(t) ==> |r| < |t|)
  {
    if ValueStops(t) then t else AfterValue(t[1..])
  }

  /** _strnicmp(t, "$(NULL)", 7) == 0 */
  predicate IsNull(t: string) {
    && |t| >= 7 && t[0] == '$' && t[1] == '('
    && (t[2] == 'N' || t[2] == 'n') && (t[3] == 'U' || t[3] == 'u')
    && (t[4] == 'L' || t[4] == 'l') && (t[5] == 'L' || t[5] == 'l') && t[6] == ')'
  }

  /** Stepping back over the counted backslashes never leads to a place where no value can start unless it
      leads past where the search began. */
  lemma {:induction false} StepBack(t: string, bs: nat)
    requires FindStart(t, bs) == Value(0 - bs)
    ensures t != "" && !IsSpace(t[0]) && (t[0] == '\\' ==> |t| > 1 && !IsSpace(t[1]))
  {
    if t[0] == '\\' {
      StepBack(t[1..], bs + 1);
    }
  }

  /** So every round of add_values starts no earlier than the one before and ends beyond its start, although
      a value may be empty. */
  lemma RoundAdvances(t: string)
    requires FindStart(t, 0).Value?
    ensures var v := t[FindStart(t, 0).off..];
            && v != "" && |v| <= |t| && |AfterValue(v)| < |t| && (v[0] == '#' ==> |ToNewline(v)| < |t|)
  {
    var off := FindStart(t, 0).off;
    if off == 0 {
      StepBack(t, 0);
      assert t[0..] == t;
      assert !ValueStops(t);
    }
  }

  /** add_values: the values from here to the end of the logical line. The termination of this function is
      the termination of add_values, on every text. */
  function Values(t: string): seq<string>
    decreases |t|
  {
    var r := FindStart(t, 0);
    if !r.Value? then []
    else
      RoundAdvances(t);
      var v := t[r.off..];
      if v[0] == '#' then Values(ToNewline(v))
      else if IsNull(v) then Values(AfterValue(v))
      else [ValueOf(v)] + Values(AfterValue(v))
  }

  /** Where add_values stops: at a newline, or at the end of the text. */
  function Stop(t: string): (r: string)
    ensures r == "" || r[0] == '\n'
    decreases |t|
  {
    match FindStart(t, 0)
    case End(off) => t[off..]
    case Eof => ""
    case Value(off) =>
      RoundAdvances(t);
      var v := t[off..];
      if v[0] == '#' then Stop(ToNewline(v)) else Stop(AfterValue(v))
  }

  // --- Macros: add_macro and extract_macros ------------------------------------------------------

  /** macro_length */
  function NameOf(t: string): string {
    if t == "" || t[0] == '=' || IsSpace(t[0]) then "" else [t[0]] + NameOf(t[1..])
  }

  /** What follows the first '='. */
  function AfterEquals(t: string): (r: Option<string>)
    ensures r.Some? ==> |r.value| < |t|
  {
    if t == "" then None else if t[0] == '=' then Some(t[1..]) else AfterEquals(t[1..])
  }

  function MacroOf(t: string): Macro {
    Macro(NameOf(t), match AfterEquals(t) case None => [] case Some(q) => Values(q))
  }

  function Extract(t: string): seq<Macro>
    decreases |t|
  {
    var m := MacroStart(t);
    var next := MacroEnd(m, 0);
    (if m != "" then [MacroOf(m)] else []) + (if next.Some? then Extract(next.value) else [])
  }

  // --- Writing -----------------------------------------------------------------------------------

  /** write_values, col being the column the line has reached: 0 stands for a fresh line, to be indented. */
  function ValuesText(values: seq<string>, col: nat): string
    decreases |values|, col
  {
    if values == [] then ""
    else if col == 0 then "    " + (values[0] + (" " + ValuesText(values[1..], |values[0]| + 5)))
    else if col + |values[0]| > 72 then "\\\n" + ValuesText(values, 0)
    else values[0] + (" " + ValuesText(values[1..], col + |values[0]| + 1))
  }

  function MacroText(m: Macro): string {
    m.name + ("=" + (ValuesText(m.values, |m.name| + 1) + "\n"))
  }

  /** The NAME=values lines of a list of macros. */
  function MacrosText(ms: seq<Macro>): string {
    if ms == [] then "" else MacroText(ms[0]) + MacrosText(ms[1..])
  }

  /** write_macros puts a guard round the whole list and another round the macro LINCS. */
  function Guarded(m: Macro): string {
    if m.name == "LINCS" then "!if \"$(MOZ_BITS)\" != \"16\"\n" + MacroText(m) + "!endif\n" else MacroText(m)
  }

  function GuardedText(ms: seq<Macro>): string {
    if ms == [] then "" else GuardedText(ms[..|ms| - 1]) + Guarded(ms[|ms| - 1])
  }

  function FileText(ms: seq<Macro>): string {
    if ms == [] then ""
    else "\n" + ("!if \"$(MANIFEST_LEVEL)\"==\"MACROS\"" + ("\n" + (GuardedText(ms) + ("\n" + ("!endif" + "\n")))))
  }
}
