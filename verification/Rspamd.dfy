/** The directives of rspamd/custom-commands.conf (mailserver_service.py): a keyword, then one to three
    arguments, the last of which swallows the rest of the line. */
module Rspamd {
  import opened Text
  import opened Container

  const COMMANDS := "rspamd/custom-commands.conf"

  datatype Field = TargetField | OptionField | ValueField

  datatype Command = Command(kind: string, target: string, option: string, value: string)

  /** Which arguments each directive takes; none for an unknown directive. */
  function Fields(kind: string): (r: seq<Field>)
    ensures |r| <= 3
  {
    if kind == "set-common-option" || kind == "set-option-for-controller" || kind == "set-option-for-proxy" then [OptionField, ValueField]
    else if kind == "enable-module" || kind == "disable-module" then [TargetField]
    else if kind == "set-option-for-module" then [TargetField, OptionField, ValueField]
    else if kind == "add-line" then [TargetField, ValueField]
    else []
  }

  function Get(c: Command, f: Field): string {
    match f
    case TargetField => c.target
    case OptionField => c.option
    case ValueField => c.value
  }

  function With(c: Command, f: Field, s: string): Command {
    match f
    case TargetField => c.(target := s)
    case OptionField => c.(option := s)
    case ValueField => c.(value := s)
  }

  /** Fill in fields from parts; the others stay as they are. */
  function Fill(c: Command, fields: seq<Field>, parts: seq<string>): Command
    requires |fields| == |parts|
    decreases |fields|
  {
    if fields == [] then c else Fill(With(c, fields[0], parts[0]), fields[1..], parts[1..])
  }

  function Build(kind: string, parts: seq<string>): Command
    requires |parts| == |Fields(kind)|
  {
    Fill(Command(kind, "", "", ""), Fields(kind), parts)
  }

  function Args(c: Command): (r: seq<string>)
    ensures |r| == |Fields(c.kind)|
  {
    seq(|Fields(c.kind)|, i requires 0 <= i < |Fields(c.kind)| => Get(c, Fields(c.kind)[i]))
  }

  predicate Blank(line: string) { Strip(line) == "" }

  /** Parse one line; None for an unknown directive or a missing argument. */
  function ParseCommand(line: string): Option<Command>
    requires !Blank(line)
  {
    NotBlankSplits(line);
    var head := SplitMax(line, 1);
    var kind := head[0];
    var n := |Fields(kind)|;
    if n == 0 then None
    else
      var parts := SplitMax(if |head| > 1 then head[1] else "", n - 1);
      if |parts| != n then None else Some(Build(kind, StripLines(parts)))
  }

  lemma NotBlankSplits(line: string)
    requires !Blank(line)
    ensures SplitMax(line, 1) != []
  {}

  function FormatCommand(c: Command): string { Join([c.kind] + Args(c), ' ') }

  // ---- Validation -------------------------------------------------------------------------------

  predicate NameChar(c: char) { 'A' <= c <= 'Z' || 'a' <= c <= 'z' || '0' <= c <= '9' || c == '_' || c == '-' }

  predicate NameOk(s: string) { s != "" && forall i | 0 <= i < |s| :: NameChar(s[i]) }

  predicate FileNameOk(s: string) {
    var i := IndexOf(s, '.');
    i < |s| && NameOk(s[..i]) && NameOk(s[i + 1..])
  }

  /** The command with its own fields stripped and the unused ones emptied. */
  function Cleaned(c: Command): Command { Build(c.kind, StripLines(Args(c))) }

  /** None stands for a refused command. `c.kind` is one of the known directives. */
  function Validate(c: Command): Option<Command> {
    var d := Cleaned(c);
    if exists f | f in Fields(c.kind) :: Get(d, f) == "" then None
    else if '\n' in d.value || '\r' in d.value then None
    else if d.option != "" && !NameOk(d.option) then None
    else if d.target != "" && !(if d.kind == "add-line" then FileNameOk(d.target) else NameOk(d.target)) then None
    else Some(d)
  }

  /** The cleaned commands in order, or None as soon as one is refused. */
  function ValidateAll(cs: seq<Command>): Option<seq<Command>> {
    if cs == [] then Some([])
    else
      var before := ValidateAll(cs[..|cs| - 1]);
      var last := Validate(cs[|cs| - 1]);
      if before.None? || last.None? then None else Some(before.value + [last.value])
  }

  // ---- The file ------------------------------------------------------------------------------------

  function ParseCommands(lines: seq<string>): seq<Command>
    requires forall l | l in lines :: !Blank(l)
  {
    if lines == [] then []
    else
      var before := ParseCommands(lines[..|lines| - 1]);
      match ParseCommand(lines[|lines| - 1])
      case None => before
      case Some(c) => before + [c]
  }

  lemma LineNotBlank(line: string)
    requires LineOk(line)
    ensures !Blank(line)
  {
    StripTrimmed(line);
  }

  lemma LinesNotBlank(lines: seq<string>)
    requires forall l | l in lines :: LineOk(l)
    ensures forall l | l in lines :: !Blank(l)
  {
    forall l | l in lines ensures !Blank(l) { LineNotBlank(l); }
  }

  function Commands(files: Files): seq<Command> {
    var lines := ReadConfigLines(Read(files, COMMANDS));
    LinesNotBlank(lines);
    ParseCommands(lines)
  }

  function FormatCommands(cs: seq<Command>): seq<string> {
    seq(|cs|, i requires 0 <= i < |cs| => FormatCommand(cs[i]))
  }

  predicate Known(cs: seq<Command>) { forall c | c in cs :: Fields(c.kind) != [] }

  function SetCommands(files: Files, cs: seq<Command>): (Files, Result<seq<Command>>) {
    match ValidateAll(cs)
    case None => (files, BadRequest)
    case Some(ds) => (files[COMMANDS := Managed(FormatCommands(ds))], Ok(ds))
  }

  class RspamdService {
    const dir: ConfigDir

    constructor (dir: ConfigDir)
      ensures this.dir == dir
    {
      this.dir := dir;
    }

    method GetCommands() returns (cs: seq<Command>)
      ensures cs == Commands(dir.files)
    {
      hide Blank, ParseCommand, LineOk;
      var content := dir.ReadConfig(COMMANDS);
      var lines := ReadConfigLines(content);
      LinesNotBlank(lines);
      cs := [];
      for i := 0 to |lines|
        invariant cs == ParseCommands(lines[..i])
      {
        assert lines[..i + 1][..i] == lines[..i];
        var command := ParseCommand(lines[i]);
        if command.Some? { cs := cs + [command.value]; }
      }
      assert lines[..|lines|] == lines;
    }

    /** The kinds are literals of the request schema, so every command is a known directive. */
    method ReplaceCommands(cs: seq<Command>) returns (r: Result<seq<Command>>)
      requires Known(cs)
      modifies dir
      ensures (dir.files, r) == SetCommands(old(dir.files), cs)
    {
      hide Validate, Managed, FormatCommands;
      var cleaned: seq<Command> := [];
      for i := 0 to |cs|
        invariant ValidateAll(cs[..i]) == Some(cleaned)
        invariant dir.files == old(dir.files)
      {
        assert cs[..i + 1][..i] == cs[..i];
        var d := Validate(cs[i]);
        if d.None? {
          RefusedEarly(cs, i + 1);
          return BadRequest;
        }
        cleaned := cleaned + [d.value];
      }
      assert cs[..|cs|] == cs;
      dir.WriteConfig(COMMANDS, Managed(FormatCommands(cleaned)));
      r := Ok(cleaned);
    }
  }

  lemma {:induction false} RefusedEarly(cs: seq<Command>, i: nat)
    requires i <= |cs| && ValidateAll(cs[..i]).None?
    ensures ValidateAll(cs).None?
    decreases |cs| - i
  {
    hide Validate;
    if i == |cs| {
      assert cs[..i] == cs;
    } else {
      assert cs[..i + 1][..i] == cs[..i];
      RefusedEarly(cs, i + 1);
    }
  }

  // ---- Parts and their text --------------------------------------------------------------------------

  /** Arguments that survive: tokens, then a last one that is trimmed. */
  predicate ArgsOk(parts: seq<string>) {
    parts != [] && (forall i | 0 <= i < |parts| - 1 :: parts[i] != "" && NoSpace(parts[i])) &&
    parts[|parts| - 1] != "" && Trimmed(parts[|parts| - 1])
  }

  lemma ArgsTail(parts: seq<string>)
    requires ArgsOk(parts) && |parts| > 1
    ensures ArgsOk(parts[1..]) && parts[0] != "" && NoSpace(parts[0])
  {
    hide NoSpace, Trimmed;
  }

  lemma SpaceIsSpace()
    ensures IsSpace(' ')
  {}

  lemma TokenStart(s: string)
    requires s != "" && NoSpace(s)
    ensures !IsSpace(s[0])
  {}

  lemma {:induction false} SplitJoined(parts: seq<string>)
    requires ArgsOk(parts)
    ensures var j := Join(parts, ' ');
      SplitMax(j, |parts| - 1) == parts && j != "" && !IsSpace(j[0]) && !IsSpace(j[|j| - 1])
  {
    hide SplitMax, NoSpace, IsSpace;
    var j := Join(parts, ' ');
    if |parts| == 1 {
      SplitMaxWhole(j);
    } else {
      var rest := Join(parts[1..], ' ');
      assert ArgsOk(parts[1..]) by { ArgsTail(parts); }
      SplitJoined(parts[1..]);
      assert IsSpace(' ') by { SpaceIsSpace(); }
      SplitMaxToken(parts[0], ' ', rest, |parts| - 1);
      assert j == parts[0] + [' '] + rest && j[0] == parts[0][0] && j[|j| - 1] == rest[|rest| - 1];
      assert parts == [parts[0]] + parts[1..];
      TokenStart(parts[0]);
    }
  }

  lemma {:induction false} JoinNoBreak(parts: seq<string>)
    requires forall p | p in parts :: NoBreak(p)
    ensures NoBreak(Join(parts, ' '))
  {
    if |parts| > 1 {
      var rest := Join(parts[1..], ' ');
      assert parts[0] in parts && forall p | p in parts[1..] :: p in parts;
      JoinNoBreak(parts[1..]);
      var j := Join(parts, ' ');
      assert forall i | 0 <= i < |j| :: j[i] == if i < |parts[0]| then parts[0][i] else if i == |parts[0]| then ' ' else rest[i - |parts[0]| - 1];
    }
  }

  lemma ArgsOfBuild(kind: string, parts: seq<string>)
    requires |parts| == |Fields(kind)|
    ensures Build(kind, parts).kind == kind && Args(Build(kind, parts)) == parts
    ensures ValueField !in Fields(kind) ==> Build(kind, parts).value == ""
    ensures ValueField in Fields(kind) ==> Build(kind, parts).value == parts[|parts| - 1]
  {
    var fields := Fields(kind);
    var c := Command(kind, "", "", "");
    if |fields| > 0 {
      FillStep(c, fields, parts);
      var c1 := With(c, fields[0], parts[0]);
      if |fields| > 1 {
        FillStep(c1, fields[1..], parts[1..]);
        var c2 := With(c1, fields[1], parts[1]);
        if |fields| > 2 {
          FillStep(c2, fields[1..][1..], parts[1..][1..]);
        }
      }
    }
  }

  lemma FillStep(c: Command, fields: seq<Field>, parts: seq<string>)
    requires |fields| == |parts| && fields != []
    ensures Fill(c, fields, parts) == Fill(With(c, fields[0], parts[0]), fields[1..], parts[1..])
  {}

  predicate KindOk(kind: string) { kind != "" && NoSpace(kind) && kind[0] != '#' }

  lemma SettingKinds()
    ensures KindOk("set-common-option") && KindOk("set-option-for-controller")
  {}

  lemma OtherSettingKinds()
    ensures KindOk("set-option-for-proxy") && KindOk("set-option-for-module")
  {}

  lemma ModuleKinds()
    ensures KindOk("enable-module") && KindOk("disable-module") && KindOk("add-line")
  {}

  lemma KindIsToken(kind: string)
    requires Fields(kind) != []
    ensures kind != "" && NoSpace(kind) && NoBreak(kind) && kind[0] != '#'
  {
    SettingKinds();
    OtherSettingKinds();
    ModuleKinds();
    hide NoSpace, NoBreak;
    assert KindOk(kind);
    NoSpaceTrimmed(kind);
  }

  /** A command built from surviving arguments is printed to a line that parses back to it. */
  lemma FormatParse(kind: string, parts: seq<string>)
    requires Fields(kind) != [] && |parts| == |Fields(kind)| && ArgsOk(parts)
    ensures var l := FormatCommand(Build(kind, parts));
      !Blank(l) && ParseCommand(l) == Some(Build(kind, parts)) && l[0] != '#' && Trimmed(l)
  {
    hide Fields, Build, SplitMax, NoSpace, Strip;
    var j := Join(parts, ' ');
    ArgsOfBuild(kind, parts);
    KindIsToken(kind);
    SplitJoined(parts);
    var l := kind + [' '] + j;
    assert FormatCommand(Build(kind, parts)) == l by {
      assert ([kind] + parts)[1..] == parts;
    }
    SplitMaxToken(kind, ' ', j, 1);
    SplitMaxWhole(j);
    assert [kind] + [j] == [kind, j];
    assert l[0] == kind[0] && l[|l| - 1] == j[|j| - 1];
    KindNotSpace(kind);
    StripTrimmed(l);
    assert StripLines(parts) == parts by {
      forall i | 0 <= i < |parts| ensures Strip(parts[i]) == parts[i] {
        if i < |parts| - 1 { NoSpaceTrimmed(parts[i]); }
        StripTrimmed(parts[i]);
      }
    }
  }

  lemma KindNotSpace(kind: string)
    requires kind != "" && NoSpace(kind)
    ensures !IsSpace(kind[0])
  {}

  lemma LStripStart(s: string)
    ensures LStrip(s) != "" ==> !IsSpace(LStrip(s)[0])
  {}

  lemma NoSpaceBefore(t: string)
    ensures NoSpace(t[..FirstSpace(t)])
  {}

  lemma {:induction false} SplitMaxParts(s: string, n: nat)
    ensures var parts := SplitMax(s, n);
      (forall i | 0 <= i < |parts| && i < n :: parts[i] != "" && NoSpace(parts[i])) &&
      (|parts| == n + 1 ==> parts[n] != "" && !IsSpace(parts[n][0]))
    decreases n
  {
    hide LStrip, IsSpace, NoSpace;
    var t := LStrip(s);
    LStripStart(s);
    if t != "" && n > 0 {
      var i := FirstSpace(t);
      SplitMaxParts(t[i..], n - 1);
      assert NoSpace(t[..i]) by { NoSpaceBefore(t); }
      assert SplitMax(s, n) == [t[..i]] + SplitMax(t[i..], n - 1);
    }
  }

  lemma StripNotBlank(s: string)
    requires s != "" && !IsSpace(s[0])
    ensures Strip(s) != "" && Trimmed(Strip(s))
  {
    assert LStrip(s) == s;
  }

  /** Stripping the pieces of a split makes them arguments that survive. */
  lemma StrippedParts(s: string, n: nat)
    requires n >= 1 && |SplitMax(s, n - 1)| == n
    ensures ArgsOk(StripLines(SplitMax(s, n - 1)))
  {
    hide SplitMax, Strip, NoSpace, IsSpace, Trimmed;
    SplitMaxParts(s, n - 1);
    var parts := SplitMax(s, n - 1);
    forall i | 0 <= i < n - 1 ensures StripLines(parts)[i] == parts[i] {
      NoSpaceTrimmed(parts[i]);
      StripTrimmed(parts[i]);
    }
    StripNotBlank(parts[n - 1]);
  }

  /** What parsing yields can always be printed. */
  lemma ParsedArgsOk(line: string)
    requires !Blank(line) && ParseCommand(line).Some?
    ensures var c := ParseCommand(line).value;
      Fields(c.kind) != [] && c == Build(c.kind, Args(c)) && ArgsOk(Args(c))
  {
    hide Fields, Build, Blank, SplitMax, ArgsOk, Args, Strip;
    NotBlankSplits(line);
    var head := SplitMax(line, 1);
    var kind := head[0];
    var rest := if |head| > 1 then head[1] else "";
    var n := |Fields(kind)|;
    StrippedParts(rest, n);
    ArgsOfBuild(kind, StripLines(SplitMax(rest, n - 1)));
  }

  /** MAIN: printing a parsed line and parsing it again gives the same command, for every line. */
  lemma ParseFormatParse(line: string)
    requires !Blank(line) && ParseCommand(line).Some?
    ensures var l := FormatCommand(ParseCommand(line).value);
      !Blank(l) && ParseCommand(l) == ParseCommand(line)
  {
    hide ParseCommand, Blank, Fields, Build, ArgsOk, FormatCommand;
    ParsedArgsOk(line);
    var c := ParseCommand(line).value;
    FormatParse(c.kind, Args(c));
  }

  // ---- Validated commands through the file --------------------------------------------------------------

  predicate Writable(c: Command) {
    Fields(c.kind) != [] && c == Build(c.kind, Args(c)) && ArgsOk(Args(c)) && (NoBreak(c.value) ==> forall a | a in Args(c) :: NoBreak(a))
  }

  lemma NameFacts(s: string)
    ensures NameOk(s) ==> s != "" && NoSpace(s)
    ensures FileNameOk(s) ==> s != "" && NoSpace(s)
  {
    if FileNameOk(s) {
      var i := IndexOf(s, '.');
      forall j | 0 <= j < |s| ensures !IsSpace(s[j]) {
        if j < i { assert NameChar(s[..i][j]); }
        if j > i { assert NameChar(s[i + 1..][j - i - 1]); }
      }
    }
  }

  lemma ValidatedIsWritable(c: Command)
    requires Fields(c.kind) != [] && Validate(c).Some?
    ensures Writable(Validate(c).value)
  {
    hide Build, Strip, NoSpace, NameOk, FileNameOk, NoBreak, Trimmed;
    var d := Validate(c).value;
    var parts := StripLines(Args(c));
    ArgsOfBuild(c.kind, parts);
    NameFacts(d.option);
    NameFacts(d.target);
    if d.option != "" { NoSpaceTrimmed(d.option); }
    if d.target != "" { NoSpaceTrimmed(d.target); }
    var fields := Fields(c.kind);
    forall i | 0 <= i < |fields|
      ensures parts[i] == Get(d, fields[i]) && parts[i] != "" && Trimmed(parts[i])
      ensures fields[i] != ValueField ==> NoSpace(parts[i]) && NoBreak(parts[i]) {
      assert parts[i] == Args(d)[i] == Get(d, fields[i]);
      assert fields[i] in fields;
    }
    forall i | 0 <= i < |fields| - 1 ensures fields[i] != ValueField { ValueIsLast(c.kind, i); }
  }

  lemma ValueIsLast(kind: string, i: nat)
    requires i < |Fields(kind)| - 1
    ensures Fields(kind)[i] != ValueField
  {}

  lemma {:induction false} ValidateAllWritable(cs: seq<Command>)
    requires Known(cs) && ValidateAll(cs).Some?
    ensures forall d | d in ValidateAll(cs).value :: Writable(d)
  {
    hide Validate, Fields, Writable;
    if cs != [] {
      var n := |cs| - 1;
      ValidateAllWritable(cs[..n]);
      assert cs[n] in cs;
      ValidatedIsWritable(cs[n]);
    }
  }

  /** Cleaning keeps one command for each, in the same order. */
  lemma {:induction false} ValidateAllInOrder(cs: seq<Command>)
    requires ValidateAll(cs).Some?
    ensures |ValidateAll(cs).value| == |cs|
    ensures forall i | 0 <= i < |cs| :: Validate(cs[i]) == Some(ValidateAll(cs).value[i])
    ensures forall i | 0 <= i < |cs| :: ValidateAll(cs).value[i] == Cleaned(cs[i])
  {
    hide Cleaned, Fields;
    if cs != [] {
      ValidateAllInOrder(cs[..|cs| - 1]);
    }
  }

  lemma {:induction false} FormatCommandsParse(cs: seq<Command>)
    requires forall c | c in cs :: Writable(c) && NoBreak(c.value)
    ensures forall l | l in FormatCommands(cs) :: LineOk(l) && !IsComment(l) && !Blank(l)
    ensures ParseCommands(FormatCommands(cs)) == cs
  {
    hide Writable, NoBreak, LineOk, IsComment, Blank, FormatCommand, ParseCommand;
    if cs != [] {
      var n := |cs| - 1;
      assert cs[n] in cs;
      CommandLine(cs[n]);
      FormatCommandsParse(cs[..n]);
      assert FormatCommands(cs)[..n] == FormatCommands(cs[..n]);
      assert cs == cs[..n] + [cs[n]];
    }
  }

  lemma CommandLine(c: Command)
    requires Writable(c) && NoBreak(c.value)
    ensures var l := FormatCommand(c);
      LineOk(l) && !IsComment(l) && !Blank(l) && ParseCommand(l) == Some(c)
  {
    hide Build, ParseCommand, ArgsOk, Trimmed, Blank;
    FormatParse(c.kind, Args(c));
    KindIsToken(c.kind);
    assert forall p | p in [c.kind] + Args(c) :: NoBreak(p);
    JoinNoBreak([c.kind] + Args(c));
    EmptyIsBlank();
  }

  lemma EmptyIsBlank()
    ensures Blank("")
  {
    StripTrimmed("");
  }

  lemma {:induction false} ParsedFitOneLine(lines: seq<string>)
    requires forall l | l in lines :: !Blank(l) && NoBreak(l)
    ensures forall c | c in ParseCommands(lines) :: NoBreak(c.value)
  {
    hide ParseCommand, Blank, NoBreak;
    if lines != [] {
      var n := |lines| - 1;
      ParsedFitOneLine(lines[..n]);
      assert lines[n] in lines;
      if ParseCommand(lines[n]).Some? { ParsedNoBreak(lines[n]); }
    }
  }

  lemma {:induction false} SplitMaxNoBreak(s: string, n: nat)
    requires NoBreak(s)
    ensures forall p | p in SplitMax(s, n) :: NoBreak(p)
    decreases n
  {
    var t := LStrip(s);
    if t != "" && n > 0 {
      SplitMaxNoBreak(t[FirstSpace(t)..], n - 1);
    }
  }

  lemma ParsedNoBreak(line: string)
    requires !Blank(line) && NoBreak(line) && ParseCommand(line).Some?
    ensures NoBreak(ParseCommand(line).value.value)
  {
    hide Fields, Build, Blank, Strip, SplitMax;
    NotBlankSplits(line);
    var head := SplitMax(line, 1);
    var n := |Fields(head[0])|;
    SplitMaxNoBreak(line, 1);
    var rest := if |head| > 1 then head[1] else "";
    assert |head| > 1 ==> head[1] in head;
    SplitMaxNoBreak(rest, n - 1);
    var parts := SplitMax(rest, n - 1);
    assert parts[n - 1] in parts;
    ArgsOfBuild(head[0], StripLines(parts));
  }

  /** Cleaning strips the value of a directive that takes one and empties it otherwise. */
  lemma CleanedValue(c: Command)
    ensures Cleaned(c).value == if ValueField in Fields(c.kind) then Strip(c.value) else ""
  {
    hide Build, Strip;
    var fields, parts := Fields(c.kind), StripLines(Args(c));
    ArgsOfBuild(c.kind, parts);
    if ValueField in fields {
      var n := |fields| - 1;
      ValueComesLast(c.kind);
      assert Args(c)[n] == c.value;
    }
  }

  lemma ValueComesLast(kind: string)
    requires ValueField in Fields(kind)
    ensures Fields(kind)[|Fields(kind)| - 1] == ValueField
  {}

  /** The value fits on one line, if the directive takes one. */
  predicate ValueFits(c: Command) { ValueField in Fields(c.kind) ==> NoBreak(Strip(c.value)) }

  /** MAIN: after the commands are set, reading them returns exactly the cleaned commands, in the same
      order with duplicates kept, if and only if no value of the request, stripped, holds a line break.
      Validation itself only refuses CR and LF, not the other breaks. */
  lemma GetAfterSetIff(files: Files, cs: seq<Command>)
    requires Known(cs) && SetCommands(files, cs).1.Ok?
    ensures var (files1, r) := SetCommands(files, cs);
      Commands(files1) == r.value <==> forall c | c in cs :: ValueFits(c)
  {
    hide Writable, NoBreak, ParseCommands, ValidateAll, Managed, FormatCommand, Blank, ReadConfigLines, LineOk, IsComment, ValueFits, Cleaned, Known;
    var (files1, r) := SetCommands(files, cs);
    var ds := r.value;
    ValidateAllWritable(cs);
    ValidateAllInOrder(cs);
    forall i | 0 <= i < |cs| ensures ValueFits(cs[i]) <==> NoBreak(ds[i].value) {
      assert ds[i] == Cleaned(cs[i]);
      FitsWhenCleaned(cs[i]);
    }
    AllFit(cs, ds);
    var lines := ReadConfigLines(Read(files1, COMMANDS));
    LinesNotBlank(lines);
    assert forall l | l in lines :: NoBreak(l) by { LinesFit(lines); }
    ParsedFitOneLine(lines);
    if forall d | d in ds :: NoBreak(d.value) {
      FormatCommandsParse(ds);
      ReadManagedLines(FormatCommands(ds));
    }
  }

  lemma FitsWhenCleaned(c: Command)
    ensures ValueFits(c) <==> NoBreak(Cleaned(c).value)
  {
    hide Strip, Cleaned;
    CleanedValue(c);
  }

  lemma AllFit(cs: seq<Command>, ds: seq<Command>)
    requires |ds| == |cs| && forall i | 0 <= i < |cs| :: ValueFits(cs[i]) <==> NoBreak(ds[i].value)
    ensures (forall c | c in cs :: ValueFits(c)) <==> forall d | d in ds :: NoBreak(d.value)
  {
    hide NoBreak, ValueFits;
    assert forall i | 0 <= i < |cs| :: cs[i] in cs && ds[i] in ds;
  }

  lemma LinesFit(lines: seq<string>)
    requires forall l | l in lines :: LineOk(l)
    ensures forall l | l in lines :: NoBreak(l)
  {}

  /** A vertical tab is a line break that validation lets through ... */
  lemma VerticalTabValidates(c: Command)
    requires c == Command("add-line", "a.conf", "", "x\U{000B}y")
    ensures Validate(c) == Some(c) && !NoBreak(c.value)
  {
    hide Cleaned, Strip, NoBreak, FileNameOk;
    VerticalTabCleaned(c);
    TabFacts();
    assert Get(c, TargetField) == "a.conf" && Get(c, ValueField) == c.value;
    assert forall f | f in Fields("add-line") :: f == TargetField || f == ValueField;
  }

  lemma TabFacts()
    ensures FileNameOk("a.conf") && !NoBreak("x\U{000B}y")
    ensures '\n' !in "x\U{000B}y" && '\r' !in "x\U{000B}y"
  {
    assert "x\U{000B}y"[1] == '\U{000B}';
    assert "a.conf" == "a" + ['.'] + "conf";
    PartitionAt("a", '.', "conf");
  }

  lemma VerticalTabCleaned(c: Command)
    requires c == Command("add-line", "a.conf", "", "x\U{000B}y")
    ensures Cleaned(c) == c
  {
    hide Strip, Build;
    StripTrimmed("a.conf");
    StripTrimmed(c.value);
    var fields := Fields("add-line");
    assert |fields| == 2 && fields[0] == TargetField && fields[1] == ValueField;
    assert StripLines(Args(c)) == ["a.conf", c.value];
    FillAddLine(c.value);
  }

  /** ... so it is not read back. */
  lemma VerticalTabIsLost(files: Files, c: Command)
    requires c == Command("add-line", "a.conf", "", "x\U{000B}y")
    ensures SetCommands(files, [c]).1 == Ok([c]) && Commands(SetCommands(files, [c]).0) != [c]
  {
    hide Validate, Commands, NoBreak;
    VerticalTabValidates(c);
    OneCommand(c);
    GetAfterSetIff(files, [c]);
    assert c in [c];
    assert !ValueFits(c) by { FitsWhenCleaned(c); VerticalTabCleaned(c); }
  }

  lemma OneCommand(c: Command)
    requires Validate(c) == Some(c) && c.kind == "add-line"
    ensures ValidateAll([c]) == Some([c]) && Known([c])
  {
    hide Validate, Fields, Known;
    var cs := [c];
    assert cs[..|cs| - 1] == [] && [] + [c] == cs;
    assert ValidateAll([]) == Some([]);
    assert Known([c]) by { AddLineKnown(c); }
  }

  lemma AddLineKnown(c: Command)
    requires c.kind == "add-line"
    ensures Known([c])
  {
    assert |Fields("add-line")| == 2;
  }

  lemma FillAddLine(v: string)
    ensures Build("add-line", ["a.conf", v]) == Command("add-line", "a.conf", "", v)
  {
    var c := Command("add-line", "", "", "");
    assert ["a.conf", v][1..] == [v] && [v][1..] == [];
    assert [TargetField, ValueField][1..] == [ValueField] && [ValueField][1..] == [];
    FillStep(c, [TargetField, ValueField], ["a.conf", v]);
    FillStep(With(c, TargetField, "a.conf"), [ValueField], [v]);
  }
}
