/** The seven Rspamd directives as text: how each is written and read, and exactly which ones are accepted. */
module Directives {
  import opened Text
  import opened Container
  import opened Rspamd

  // ---- Written and read --------------------------------------------------------------------------------

  predicate Token(s: string) { s != "" && NoSpace(s) }

  /** The rest of a line: anything that is not blank, without white space around it. */
  predicate Rest(s: string) { s != "" && Trimmed(s) }

  lemma FillTwo(c: Command, f: Field, g: Field, x: string, y: string)
    ensures Fill(c, [f, g], [x, y]) == With(With(c, f, x), g, y)
  {
    assert [f, g][1..] == [g] && [x, y][1..] == [y];
    FillStep(c, [f, g], [x, y]);
    FillOne(With(c, f, x), g, y);
  }

  lemma FillOne(c: Command, f: Field, x: string)
    ensures Fill(c, [f], [x]) == With(c, f, x)
  {
    assert [f][1..] == [] && [x][1..] == [];
    FillStep(c, [f], [x]);
  }

  lemma JoinTwo(a: string, b: string)
    ensures Join([a, b], ' ') == a + " " + b
  {
    assert [a, b][1..] == [b];
  }

  /** A line that prints arguments which survive is read as the command they build. */
  lemma TextOf(c: Command, parts: seq<string>, text: string)
    requires Fields(c.kind) != [] && |parts| == |Fields(c.kind)| && c == Build(c.kind, parts)
    requires text == c.kind + " " + Join(parts, ' ')
    ensures FormatCommand(c) == text
    ensures ArgsOk(parts) ==> !Blank(text) && ParseCommand(text) == Some(c)
  {
    hide Build, ParseCommand, Blank, Fields, ArgsOk;
    ArgsOfBuild(c.kind, parts);
    if |parts| > 0 {
      assert ([c.kind] + parts)[1..] == parts;
      if ArgsOk(parts) { FormatParse(c.kind, parts); }
    }
  }

  /** MAIN: how the directives that set an option of the whole of Rspamd, its controller or its proxy are written and read. */
  lemma SettingText(kind: string, option: string, value: string)
    requires kind in {"set-common-option", "set-option-for-controller", "set-option-for-proxy"}
    ensures var c, text := Command(kind, "", option, value), kind + " " + (option + " " + value);
      FormatCommand(c) == text && (Token(option) && Rest(value) ==> !Blank(text) && ParseCommand(text) == Some(c))
  {
    hide FormatCommand, ParseCommand, Blank, NoSpace, Trimmed;
    assert Fields(kind) == [OptionField, ValueField];
    FillTwo(Command(kind, "", "", ""), OptionField, ValueField, option, value);
    JoinTwo(option, value);
    TextOf(Command(kind, "", option, value), [option, value], kind + " " + (option + " " + value));
  }

  /** ... those that switch a module on or off, */
  lemma SwitchText(kind: string, target: string)
    requires kind in {"enable-module", "disable-module"}
    ensures var c, text := Command(kind, target, "", ""), kind + " " + target;
      FormatCommand(c) == text && (Rest(target) ==> !Blank(text) && ParseCommand(text) == Some(c))
  {
    hide FormatCommand, ParseCommand, Blank, NoSpace, Trimmed;
    assert Fields(kind) == [TargetField];
    FillOne(Command(kind, "", "", ""), TargetField, target);
    assert Join([target], ' ') == target;
    TextOf(Command(kind, target, "", ""), [target], kind + " " + target);
  }

  /** ... the one that sets an option of a module, */
  lemma ModuleOptionText(target: string, option: string, value: string)
    ensures var c, text := Command("set-option-for-module", target, option, value), "set-option-for-module" + " " + (target + " " + (option + " " + value));
      FormatCommand(c) == text && (Token(target) && Token(option) && Rest(value) ==> !Blank(text) && ParseCommand(text) == Some(c))
  {
    hide FormatCommand, ParseCommand, Blank, NoSpace, Trimmed;
    var kind, parts := "set-option-for-module", [target, option, value];
    var fields := [TargetField, OptionField, ValueField];
    assert Fields(kind) == fields;
    assert fields[1..] == [OptionField, ValueField] && parts[1..] == [option, value];
    FillStep(Command(kind, "", "", ""), fields, parts);
    FillTwo(Command(kind, target, "", ""), OptionField, ValueField, option, value);
    JoinTwo(option, value);
    assert Join(parts, ' ') == target + [' '] + Join(parts[1..], ' ');
    assert target + [' '] + (option + " " + value) == target + " " + (option + " " + value);
    TextOf(Command(kind, target, option, value), parts, kind + " " + (target + " " + (option + " " + value)));
  }

  /** ... and the one that appends a line to a file. */
  lemma AddLineText(target: string, value: string)
    ensures var c, text := Command("add-line", target, "", value), "add-line" + " " + (target + " " + value);
      FormatCommand(c) == text && (Token(target) && Rest(value) ==> !Blank(text) && ParseCommand(text) == Some(c))
  {
    hide FormatCommand, ParseCommand, Blank, NoSpace, Trimmed;
    assert Fields("add-line") == [TargetField, ValueField];
    FillTwo(Command("add-line", "", "", ""), TargetField, ValueField, target, value);
    JoinTwo(target, value);
    TextOf(Command("add-line", target, "", value), [target, value], "add-line" + " " + (target + " " + value));
  }

  /** A line with any other keyword is no directive. */
  lemma OtherKeyword(kind: string, rest: string)
    requires Token(kind)
    requires kind !in {"set-common-option", "set-option-for-controller", "set-option-for-proxy", "enable-module", "disable-module",
                       "set-option-for-module", "add-line"}
    ensures var text := kind + [' '] + rest; !Blank(text) ==> ParseCommand(text) == None
  {
    hide NoSpace, Blank, SplitMax, Build, IsSpace;
    SpaceIsSpace();
    SplitMaxToken(kind, ' ', rest, 1);
    assert Fields(kind) == [];
  }

  // ---- Accepted ------------------------------------------------------------------------------------------

  /** A module or option name: letters, digits, underscores and hyphens. */
  predicate Name(s: string) {
    s != "" && forall i | 0 <= i < |s| :: 'A' <= s[i] <= 'Z' || 'a' <= s[i] <= 'z' || '0' <= s[i] <= '9' || s[i] == '_' || s[i] == '-'
  }

  /** A file name: two names around one dot. */
  ghost predicate FileName(s: string) { exists a, b :: Name(a) && Name(b) && s == a + ['.'] + b }

  /** A value that fits on one line as far as validation looks: it only looks for CR and LF. */
  predicate Value(s: string) { s != "" && '\n' !in s && '\r' !in s }

  lemma NameIff(s: string)
    ensures NameOk(s) <==> Name(s)
  {}

  lemma NoDot(s: string)
    requires Name(s)
    ensures '.' !in s
  {}

  lemma FileNameIff(s: string)
    ensures FileNameOk(s) <==> FileName(s)
  {
    hide NameOk, Name;
    var i := IndexOf(s, '.');
    if FileNameOk(s) {
      NameIff(s[..i]);
      NameIff(s[i + 1..]);
      assert s == s[..i] + ['.'] + s[i + 1..];
    }
    if a, b :| Name(a) && Name(b) && s == a + ['.'] + b {
      NameIff(a);
      NameIff(b);
      assert '.' !in a by { NoDot(a); }
      PartitionAt(a, '.', b);
    }
  }

  lemma CleanedIs(c: Command, parts: seq<string>)
    requires |parts| == |Fields(c.kind)| && StripLines(Args(c)) == parts
    ensures Cleaned(c) == Build(c.kind, parts)
  {}

  /** MAIN: a directive that sets an option is accepted if and only if the option is a name and the value, stripped,
      is not empty and holds neither CR nor LF; other fields are emptied. */
  lemma SettingAccepted(c: Command)
    requires c.kind in {"set-common-option", "set-option-for-controller", "set-option-for-proxy"}
    ensures var o, v := Strip(c.option), Strip(c.value);
      Validate(c) == if Name(o) && Value(v) then Some(Command(c.kind, "", o, v)) else None
  {
    hide Strip, Fields, Args;
    var o, v := Strip(c.option), Strip(c.value);
    assert Fields(c.kind) == [OptionField, ValueField] by { SettingFields(c.kind); }
    assert StripLines(Args(c)) == [o, v] by { ArgsAre(c); }
    FillTwo(Command(c.kind, "", "", ""), OptionField, ValueField, o, v);
    assert Cleaned(c) == Command(c.kind, "", o, v);
    assert OptionField in Fields(c.kind) && ValueField in Fields(c.kind);
  }

  lemma SettingFields(kind: string)
    requires kind in {"set-common-option", "set-option-for-controller", "set-option-for-proxy"}
    ensures Fields(kind) == [OptionField, ValueField]
  {}

  lemma ArgsAre(c: Command)
    ensures var fields := Fields(c.kind);
      |StripLines(Args(c))| == |fields| && forall i | 0 <= i < |fields| :: StripLines(Args(c))[i] == Strip(Get(c, fields[i]))
  {}

  /** MAIN: switching a module on or off is accepted if and only if the module is a name. */
  lemma SwitchAccepted(c: Command)
    requires c.kind in {"enable-module", "disable-module"}
    ensures var t := Strip(c.target); Validate(c) == if Name(t) then Some(Command(c.kind, t, "", "")) else None
  {
    hide Strip, Fields, Args;
    var t := Strip(c.target);
    assert Fields(c.kind) == [TargetField] && c.kind != "add-line" by { SwitchFields(c.kind); }
    assert StripLines(Args(c)) == [t] by { ArgsAre(c); }
    FillOne(Command(c.kind, "", "", ""), TargetField, t);
    assert Cleaned(c) == Command(c.kind, t, "", "");
    assert TargetField in Fields(c.kind);
  }

  lemma SwitchFields(kind: string)
    requires kind in {"enable-module", "disable-module"}
    ensures Fields(kind) == [TargetField] && kind != "add-line"
  {}

  /** MAIN: setting an option of a module is accepted if and only if both are names and the value is one. */
  lemma ModuleOptionAccepted(c: Command)
    requires c.kind == "set-option-for-module"
    ensures var t, o, v := Strip(c.target), Strip(c.option), Strip(c.value);
      Validate(c) == if Name(t) && Name(o) && Value(v) then Some(Command(c.kind, t, o, v)) else None
  {
    hide Strip, Fields, Args;
    var t, o, v := Strip(c.target), Strip(c.option), Strip(c.value);
    var fields, parts := [TargetField, OptionField, ValueField], [t, o, v];
    assert Fields(c.kind) == fields && c.kind != "add-line" by { ModuleOptionFields(); }
    assert StripLines(Args(c)) == parts by { ArgsAre(c); }
    assert fields[1..] == [OptionField, ValueField] && parts[1..] == [o, v];
    FillStep(Command(c.kind, "", "", ""), fields, parts);
    FillTwo(Command(c.kind, t, "", ""), OptionField, ValueField, o, v);
    assert Cleaned(c) == Command(c.kind, t, o, v);
    assert TargetField in fields && OptionField in fields && ValueField in fields;
  }

  lemma ModuleOptionFields()
    ensures Fields("set-option-for-module") == [TargetField, OptionField, ValueField] && "set-option-for-module" != "add-line"
  {}

  /** MAIN: a line is appended to a file if and only if its name is two names around a dot and the value is one. */
  lemma AddLineAccepted(c: Command)
    requires c.kind == "add-line"
    ensures var t, v := Strip(c.target), Strip(c.value);
      Validate(c) == if FileName(t) && Value(v) then Some(Command(c.kind, t, "", v)) else None
  {
    hide Strip, Fields, Args, FileName, FileNameOk;
    var t, v := Strip(c.target), Strip(c.value);
    assert Fields(c.kind) == [TargetField, ValueField] by { AddLineFields(); }
    assert StripLines(Args(c)) == [t, v] by { ArgsAre(c); }
    FillTwo(Command(c.kind, "", "", ""), TargetField, ValueField, t, v);
    assert Cleaned(c) == Command(c.kind, t, "", v);
    FileNameIff(t);
    assert FileName(t) ==> t != "" by { FileNameNotEmpty(t); }
    assert TargetField in Fields(c.kind) && ValueField in Fields(c.kind);
  }

  lemma AddLineFields()
    ensures Fields("add-line") == [TargetField, ValueField]
  {}

  lemma FileNameNotEmpty(s: string)
    ensures FileName(s) ==> s != ""
  {}

  /** MAIN: what is written for an accepted request: below the header, one line per command, in order. */
  lemma WrittenCommands(files: Files, cs: seq<Command>)
    ensures var (files1, r) := SetCommands(files, cs);
      (r.Ok? <==> forall c | c in cs :: Validate(c).Some?) && (!r.Ok? ==> r == BadRequest && files1 == files) &&
      (r.Ok? ==> |r.value| == |cs| && forall i | 0 <= i < |cs| :: Validate(cs[i]) == Some(r.value[i])) &&
      (r.Ok? ==> |r.value| == |cs| && files1 == files["rspamd/custom-commands.conf" :=
        MANAGED_HEADER + Unlines(seq(|cs|, i requires 0 <= i < |cs| => FormatCommand(r.value[i])))])
  {
    hide Validate, FormatCommand, Cleaned;
    AllValidIff(cs);
    if ValidateAll(cs).Some? {
      ValidateAllInOrder(cs);
      var ds := ValidateAll(cs).value;
      assert FormatCommands(ds) == seq(|cs|, i requires 0 <= i < |cs| => FormatCommand(ds[i]));
    }
  }

  lemma {:induction false} AllValidIff(cs: seq<Command>)
    ensures ValidateAll(cs).Some? <==> forall c | c in cs :: Validate(c).Some?
  {
    hide Validate;
    if cs != [] {
      var n := |cs| - 1;
      AllValidIff(cs[..n]);
      assert cs == cs[..n] + [cs[n]];
    }
  }
}
