/**
 * The leveled diagnostics facade: the `log!` macro's level table and line
 * layout, and the per-level wrapper macros. A macro invocation is modelled
 * as a function of the level, the build profile (`debug_assertions`), the
 * call site (`file!()`, `line!()`) and the already formatted message; it
 * yields what it hands to `write_serial!`.
 */
module Log {
  import opened Primitives
  import Wrappers

  /** `LogLevel`, discriminants 0 (None) to 7 (Panic). */
  datatype LogLevel = None | Trace | Debug | Info | Warn | Error | Fatal | Panic

  /** The discriminant of each level (`level as u8`). */
  function Discriminant(level: LogLevel): (d: nat)
    ensures d < 8
  {
    match level
    case None => 0
    case Trace => 1
    case Debug => 2
    case Info => 3
    case Warn => 4
    case Error => 5
    case Fatal => 6
    case Panic => 7
  }

  /** The level with a given discriminant, in declaration order. */
  function LevelAt(d: nat): (r: Wrappers.Option<LogLevel>)
    ensures r.Some? <==> d < 8
  {
    if d < 8 then Wrappers.Some([None, Trace, Debug, Info, Warn, Error, Fatal, Panic][d]) else Wrappers.None
  }

  /** The discriminants are exactly 0..7, one per level. */
  lemma DiscriminantsConsecutive(level: LogLevel, d: nat)
    ensures LevelAt(Discriminant(level)) == Wrappers.Some(level)
    ensures d < 8 ==> Discriminant(LevelAt(d).value) == d
  {
  }

  /** What `log!` selects per level: `(label, color_code, show_location)`. */
  datatype Style = Style(name: string, colour: u32, showLocation: bool)

  /** The level table of `log!`; `debugBuild` is `cfg(debug_assertions)`. */
  function LevelStyle(level: LogLevel, debugBuild: bool): (style: Style)
    ensures 4 <= |style.name| <= 5 && ']' !in style.name
    ensures style.showLocation ==> Discriminant(level) >= Discriminant(Warn)
  {
    match level
    case None => Style("NONE", 0xffffff, false)
    case Trace => Style("TRACE", 0x00cc00, false)
    case Debug => Style("DEBUG", 0xff0000, false)
    case Info => Style("INFO", 0xffff00, false)
    case Warn => if debugBuild then Style("WARN ", 0xff0000, true) else Style("WARN ", 0xff0000, false)
    case Error => Style("ERROR", 0xcc0000, true)
    case Fatal => Style("FATAL", 0xcc0000, true)
    case Panic => Style("PANIC", 0x0066cc, true)
  }

  /**
   * The location policy: Error and above always annotate, Warn only in
   * debug builds, everything below Warn never.
   */
  lemma ShowLocationPolicy(level: LogLevel, debugBuild: bool)
    ensures LevelStyle(level, debugBuild).showLocation <==>
      Discriminant(level) >= Discriminant(Error) || (level == Warn && debugBuild)
  {
  }

  /** Only Warn depends on the build profile, and only in its location policy. */
  lemma BuildProfileOnlyAffectsWarn(level: LogLevel)
    ensures level != Warn ==> LevelStyle(level, true) == LevelStyle(level, false)
    ensures LevelStyle(level, true).name == LevelStyle(level, false).name
    ensures LevelStyle(level, true).colour == LevelStyle(level, false).colour
  {
  }

  /** The level a label stands for: the partner of the table's label column. */
  function LevelOfLabel(name: string): (r: Wrappers.Option<LogLevel>)
  {
    if name == "NONE" then Wrappers.Some(None)
    else if name == "TRACE" then Wrappers.Some(Trace)
    else if name == "DEBUG" then Wrappers.Some(Debug)
    else if name == "INFO" then Wrappers.Some(Info)
    else if name == "WARN " then Wrappers.Some(Warn)
    else if name == "ERROR" then Wrappers.Some(Error)
    else if name == "FATAL" then Wrappers.Some(Fatal)
    else if name == "PANIC" then Wrappers.Some(Panic)
    else Wrappers.None
  }

  /** Distinct levels have distinct labels, and no label contains `]`. */
  lemma LabelsIdentifyLevels(level: LogLevel, debugBuild: bool)
    ensures LevelOfLabel(LevelStyle(level, debugBuild).name) == Wrappers.Some(level)
    ensures ']' !in LevelStyle(level, debugBuild).name
  {
  }

  // ---------------------------------------------------------------------
  // Line layout
  // ---------------------------------------------------------------------

  /** The decimal digits of `n`, as `{}` prints an integer. */
  function Decimal(n: nat): (s: string)
    ensures |s| >= 1
    ensures forall i :: 0 <= i < |s| ==> '0' <= s[i] <= '9'
    decreases n
  {
    if n < 10 then [Digit(n)] else Decimal(n / 10) + [Digit(n % 10)]
  }

  function Digit(d: nat): (c: char)
    requires d < 10
    ensures '0' <= c <= '9'
  {
    ('0' as int + d) as char
  }

  /** The value of a string of decimal digits: the partner of `Decimal`. */
  function DecimalValue(s: string): nat
    decreases |s|
  {
    if s == [] then 0
    else 10 * DecimalValue(s[..|s| - 1]) + ((s[|s| - 1] as int - '0' as int) % 10)
  }

  /** The printed line number reads back as the line number. */
  lemma {:induction false} DecimalRoundTrip(n: nat)
    ensures DecimalValue(Decimal(n)) == n
    decreases n
  {
    var s := Decimal(n);
    if n < 10 {
      assert s[..|s| - 1] == [];
      assert (s[0] as int - '0' as int) % 10 == n;
    } else {
      DecimalRoundTrip(n / 10);
      assert s[..|s| - 1] == Decimal(n / 10);
      assert (s[|s| - 1] as int - '0' as int) % 10 == n % 10;
    }
  }

  /** The `file:line: ` annotation. */
  function Location(file: string, line: nat): string {
    file + ":" + Decimal(line) + ": "
  }

  /** The line `log!` formats: `[LABEL] file:line: msg` with the location, `[LABEL] msg` without. */
  function FormatLine(style: Style, file: string, line: nat, msg: string): (text: string)
    ensures |text| >= |style.name| + 3 + |msg|
    ensures text[..|style.name| + 3] == "[" + style.name + "] "
    ensures text[|text| - |msg|..] == msg
    ensures style.showLocation ==> text[|style.name| + 3..|text| - |msg|] == Location(file, line)
    ensures !style.showLocation ==> |text| == |style.name| + 3 + |msg|
  {
    if style.showLocation then "[" + style.name + "] " + Location(file, line) + msg
    else "[" + style.name + "] " + msg
  }

  /** What `log!` hands to `write_serial!`: the level's colour and the formatted line. */
  datatype SerialWrite = SerialWrite(colour: Wrappers.Option<u32>, text: string)

  /** `log!(level, ...)`. */
  function LogLine(level: LogLevel, debugBuild: bool, file: string, line: nat, msg: string): (w: SerialWrite)
    ensures w.colour == Wrappers.Some(LevelStyle(level, debugBuild).colour)
    ensures |w.text| > |LevelStyle(level, debugBuild).name| + 3 + |msg| <==> LevelStyle(level, debugBuild).showLocation
    ensures |w.text| >= |LevelStyle(level, debugBuild).name| + 3 + |msg|
    ensures w.text[..|LevelStyle(level, debugBuild).name| + 3] == "[" + LevelStyle(level, debugBuild).name + "] "
    ensures w.text[|w.text| - |msg|..] == msg
  {
    var style := LevelStyle(level, debugBuild);
    SerialWrite(Wrappers.Some(style.colour), FormatLine(style, file, line, msg))
  }

  /** The text between the leading `[` and the first `]`, when the line has that shape. */
  function BracketedLabel(text: string): Wrappers.Option<string> {
    if |text| > 0 && text[0] == '[' then
      var close := IndexOf(text[1..], ']');
      if close.Some? then Wrappers.Some(text[1..][..close.value]) else Wrappers.None
    else Wrappers.None
  }

  /** The first position of `c` in `s`. */
  function IndexOf(s: string, c: char): (r: Wrappers.Option<nat>)
    ensures r.Some? ==> r.value < |s| && s[r.value] == c && c !in s[..r.value]
    ensures r.None? ==> c !in s
    decreases |s|
  {
    if s == [] then Wrappers.None
    else if s[0] == c then Wrappers.Some(0)
    else
      var r := IndexOf(s[1..], c);
      if r.Some? then Wrappers.Some(r.value + 1) else Wrappers.None
  }

  /** The level a formatted line was logged at, read from its `[LABEL]` prefix. */
  function LevelOfLine(text: string): Wrappers.Option<LogLevel> {
    var name := BracketedLabel(text);
    if name.Some? then LevelOfLabel(name.value) else Wrappers.None
  }

  lemma {:induction false} IndexOfFirst(a: string, c: char, b: string)
    requires c !in a
    ensures IndexOf(a + [c] + b, c) == Wrappers.Some(|a|)
    decreases |a|
  {
    if a != [] {
      assert (a + [c] + b)[1..] == a[1..] + [c] + b;
      IndexOfFirst(a[1..], c, b);
    }
  }

  /** A line that opens with `[name] ` splits at the closing bracket. */
  lemma LabelPrefixSplit(text: string, name: string)
    requires |text| >= |name| + 3 && text[..|name| + 3] == "[" + name + "] "
    ensures text == "[" + name + "]" + text[|name| + 2..]
  {
    assert text == text[..|name| + 2] + text[|name| + 2..];
    assert text[..|name| + 2] == text[..|name| + 3][..|name| + 2];
  }

  /** The bracketed label of `[name]rest` is `name`, when `name` holds no `]`. */
  lemma BracketedLabelOf(name: string, rest: string)
    requires ']' !in name
    ensures BracketedLabel("[" + name + "]" + rest) == Wrappers.Some(name)
  {
    var text := "[" + name + "]" + rest;
    assert text[1..] == name + [']'] + rest;
    IndexOfFirst(name, ']', rest);
    assert text[1..][..|name|] == name;
  }

  /** Every line `log!` writes starts with `[LABEL]`, which names the level it was logged at. */
  lemma LevelOfLogLine(level: LogLevel, debugBuild: bool, file: string, line: nat, msg: string)
    ensures LevelOfLine(LogLine(level, debugBuild, file, line, msg).text) == Wrappers.Some(level)
  {
    var name := LevelStyle(level, debugBuild).name;
    var text := LogLine(level, debugBuild, file, line, msg).text;
    LabelPrefixSplit(text, name);
    BracketedLabelOf(name, text[|name| + 2..]);
    LabelsIdentifyLevels(level, debugBuild);
  }

  /** Error, Fatal and Panic lines carry `file:line: ` in every build; None to Info lines never do. */
  lemma LocationByLevel(level: LogLevel, debugBuild: bool, file: string, line: nat, msg: string)
    ensures var style := LevelStyle(level, debugBuild);
      var text := LogLine(level, debugBuild, file, line, msg).text;
      (Discriminant(level) >= Discriminant(Error) ==> text == "[" + style.name + "] " + Location(file, line) + msg) &&
      (Discriminant(level) < Discriminant(Warn) ==> text == "[" + style.name + "] " + msg) &&
      (level == Warn && debugBuild ==> text == "[WARN ] " + Location(file, line) + msg) &&
      (level == Warn && !debugBuild ==> text == "[WARN ] " + msg)
  {
  }

  // ---------------------------------------------------------------------
  // Wrapper macros
  // ---------------------------------------------------------------------

  /** The wrapper macros `trace!` .. `panic_log!`; there is none for `LogLevel::None`. */
  datatype LogMacro = TraceMacro | DebugMacro | InfoMacro | WarnMacro | ErrorMacro | FatalMacro | PanicLogMacro

  /** The wrapper that logs at `level`, if any. */
  function MacroFor(level: LogLevel): Wrappers.Option<LogMacro> {
    match level
    case None => Wrappers.None
    case Trace => Wrappers.Some(TraceMacro)
    case Debug => Wrappers.Some(DebugMacro)
    case Info => Wrappers.Some(InfoMacro)
    case Warn => Wrappers.Some(WarnMacro)
    case Error => Wrappers.Some(ErrorMacro)
    case Fatal => Wrappers.Some(FatalMacro)
    case Panic => Wrappers.Some(PanicLogMacro)
  }

  /** The level each wrapper forwards: never `None`, and a different one for each wrapper. */
  function MacroLevel(m: LogMacro): (level: LogLevel)
    ensures level != None
    ensures MacroFor(level) == Wrappers.Some(m)
  {
    match m
    case TraceMacro => Trace
    case DebugMacro => Debug
    case InfoMacro => Info
    case WarnMacro => Warn
    case ErrorMacro => Error
    case FatalMacro => Fatal
    case PanicLogMacro => Panic
  }

  /** What an invocation of wrapper `m` writes: `debug!` expands to nothing in release builds. */
  function Expand(m: LogMacro, debugBuild: bool, file: string, line: nat, msg: string): (ws: seq<SerialWrite>)
    ensures |ws| <= 1
    ensures ws == [] <==> m == DebugMacro && !debugBuild
  {
    if m == DebugMacro && !debugBuild then []
    else [LogLine(MacroLevel(m), debugBuild, file, line, msg)]
  }

  /** Whatever a wrapper writes is a line logged at that wrapper's own level. */
  lemma MacrosForwardOwnLevel(m: LogMacro, debugBuild: bool, file: string, line: nat, msg: string)
    ensures forall w | w in Expand(m, debugBuild, file, line, msg) :: LevelOfLine(w.text) == Wrappers.Some(MacroLevel(m))
  {
    LevelOfLogLine(MacroLevel(m), debugBuild, file, line, msg);
  }
}
