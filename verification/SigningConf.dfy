/** Reading the signing configuration back that a migration writes: its settings, and which private key signs for
    which domain under which selector. */
module SigningConf {
  import opened Text
  import opened Container
  import opened Dkim
  import opened DkimMigration
  import opened DkimRecords

  /** One block of the configuration. */
  datatype Entry = Entry(domain: string, path: string, selector: string)

  datatype Conf = Conf(settings: seq<string>, entries: seq<Entry>)

  // ---- The reader -----------------------------------------------------------------------------------------

  /** What a line holds between a head and a tail. */
  function Between(line: string, head: string, tail: string): Option<string> {
    if |head| + |tail| <= |line| && StartsWith(line, head) && EndsWith(line, tail) then Some(line[|head|..|line| - |tail|]) else None
  }

  /** Blocks of four lines, then the closing bracket. */
  function ReadEntries(lines: seq<string>): Option<seq<Entry>> {
    if lines == ["}"] then Some([])
    else if |lines| < 4 || lines[3] != "    }" then None
    else
      var domain, path := Between(lines[0], "    ", " {"), Between(lines[1], "        path = \"", "\";");
      var selector, rest := Between(lines[2], "        selector = \"", "\";"), ReadEntries(lines[4..]);
      if domain.None? || path.None? || selector.None? || rest.None? then None
      else Some([Entry(domain.value, path.value, selector.value)] + rest.value)
  }

  function FirstLine(lines: seq<string>, line: string): (i: nat)
    ensures i <= |lines|
  {
    if lines == [] || lines[0] == line then 0 else 1 + FirstLine(lines[1..], line)
  }

  /** Settings up to the line that opens the domains, then their blocks. */
  function ReadConf(text: string): Option<Conf> {
    var lines := SplitLines(text);
    var i := FirstLine(lines, "domain {");
    if i == |lines| then None
    else
      match ReadEntries(lines[i + 1..])
      case None => None
      case Some(entries) => Some(Conf(DropComments(NonBlank(lines[..i])), entries))
  }

  // ---- Reading what is written -------------------------------------------------------------------------------

  lemma {:induction false} SplitUnlinesThen(lines: seq<string>, rest: string)
    requires forall l | l in lines :: NoBreak(l)
    ensures SplitLines(Unlines(lines) + rest) == lines + SplitLines(rest)
  {
    hide NoBreak, SplitLines;
    if lines == [] {
      assert Unlines(lines) + rest == rest;
    } else {
      SplitUnlinesThen(lines[1..], rest);
      assert Unlines(lines) + rest == lines[0] + "\n" + (Unlines(lines[1..]) + rest);
      SplitLinesCons(lines[0], Unlines(lines[1..]) + rest);
    }
  }

  lemma BetweenParts(head: string, middle: string, tail: string)
    ensures Between(head + middle + tail, head, tail) == Some(middle)
  {
    var line := head + middle + tail;
    assert line[..|head|] == head && line[|line| - |tail|..] == tail && line[|head|..|line| - |tail|] == middle;
  }

  lemma OneLineParts(a: string, b: string, c: string)
    requires NoBreak(a) && NoBreak(b) && NoBreak(c)
    ensures NoBreak(a + b + c)
  {}

  /** The lines of one block. */
  function BlockLines(size: nat, k: DkimKey): seq<string> {
    ["    " + k.domain + " {",
     "        path = \"" + (CONFIG_DIR + PrivateTarget(size, k)) + "\";",
     "        selector = \"" + k.selector + "\";",
     "    }"]
  }

  lemma Pieces()
    ensures NoBreak("    ") && NoBreak(" {") && NoBreak("        path = \"") && NoBreak("\";")
    ensures NoBreak("        selector = \"") && NoBreak("    }") && NoBreak("}")
  {}

  lemma PathPieces()
    ensures NoBreak("/tmp/docker-mailserver/") && NoBreak("rspamd/dkim/") && NoBreak("rsa-") && NoBreak("-") && NoBreak(".private.txt")
  {}

  lemma DigitsOneLine(n: nat)
    ensures NoBreak(PrintNat(n))
  {
    assert forall c | IsDigit(c) :: !IsBreak(c);
  }

  lemma PathOneLine(size: nat, k: DkimKey)
    requires NoBreak(k.domain) && NoBreak(k.selector)
    ensures NoBreak(CONFIG_DIR + PrivateTarget(size, k))
  {
    PathPieces();
    DigitsOneLine(size);
    hide IsBreak, PrintNat;
    var name := PrintNat(size) + "-" + k.selector + "-" + k.domain;
    OneLineParts(PrintNat(size), "-", k.selector);
    OneLineParts(PrintNat(size) + "-" + k.selector, "-", k.domain);
    OneLineParts("rsa-", name, ".private.txt");
    OneLineParts("/tmp/docker-mailserver/", "rspamd/dkim/", "rsa-" + name + ".private.txt");
    assert BaseName(size, k.selector, k.domain) == "rsa-" + name;
    assert CONFIG_DIR + PrivateTarget(size, k) == "/tmp/docker-mailserver/" + "rspamd/dkim/" + ("rsa-" + name + ".private.txt");
  }

  lemma BlockLinesFit(size: nat, k: DkimKey)
    requires NoBreak(k.domain) && NoBreak(k.selector)
    ensures forall l | l in BlockLines(size, k) :: NoBreak(l)
  {
    hide NoBreak, PrivateTarget;
    Pieces();
    PathOneLine(size, k);
    OneLineParts("    ", k.domain, " {");
    OneLineParts("        path = \"", CONFIG_DIR + PrivateTarget(size, k), "\";");
    OneLineParts("        selector = \"", k.selector, "\";");
  }

  function EntryOf(size: nat, k: DkimKey): Entry { Entry(k.domain, CONFIG_DIR + PrivateTarget(size, k), k.selector) }

  lemma BlockReads(size: nat, k: DkimKey, rest: seq<string>)
    ensures ReadEntries(BlockLines(size, k) + rest) ==
      match ReadEntries(rest) case None => None case Some(entries) => Some([EntryOf(size, k)] + entries)
  {
    hide Between, PrivateTarget;
    var lines := BlockLines(size, k) + rest;
    assert |lines| >= 4 && lines[4..] == rest && lines[3] == "    }";
    BetweenParts("    ", k.domain, " {");
    BetweenParts("        path = \"", CONFIG_DIR + PrivateTarget(size, k), "\";");
    BetweenParts("        selector = \"", k.selector, "\";");
  }

  /** The entries of the migrated keys, in order. */
  function EntriesOf(files: Files, keys: seq<DkimKey>, keySize: KeySize): seq<Entry>
    requires AllRsa(files, keys, keySize)
  {
    if keys == [] then []
    else EntriesOf(files, keys[..|keys| - 1], keySize) + [EntryOf(SizeOf(files, keys[|keys| - 1], keySize).value, keys[|keys| - 1])]
  }

  lemma {:induction false} EntriesAre(files: Files, keys: seq<DkimKey>, keySize: KeySize)
    requires AllRsa(files, keys, keySize)
    ensures var r := EntriesOf(files, keys, keySize);
      |r| == |keys| && forall i | 0 <= i < |keys| :: keys[i] in keys && r[i] == EntryOf(SizeOf(files, keys[i], keySize).value, keys[i])
  {
    hide SizeOf, EntryOf;
    if keys != [] { EntriesAre(files, keys[..|keys| - 1], keySize); }
  }

  lemma BlockThen(size: nat, k: DkimKey, rest: string)
    requires NoBreak(k.domain) && NoBreak(k.selector) && ReadEntries(SplitLines(rest)).Some?
    ensures ReadEntries(SplitLines(Block(size, k) + rest)) == Some([EntryOf(size, k)] + ReadEntries(SplitLines(rest)).value)
  {
    hide NoBreak, SplitLines, ReadEntries, EntryOf, Block, BlockLines, Unlines;
    BlockLinesFit(size, k);
    SplitUnlinesThen(BlockLines(size, k), rest);
    BlockReads(size, k, SplitLines(rest));
    BlockIs(size, k);
  }

  lemma {:induction false} BlocksRead(files: Files, keys: seq<DkimKey>, keySize: KeySize, rest: string)
    requires AllRsa(files, keys, keySize) && forall k | k in keys :: NoBreak(k.domain) && NoBreak(k.selector)
    requires ReadEntries(SplitLines(rest)).Some?
    ensures ReadEntries(SplitLines(Blocks(files, keys, keySize) + rest)) ==
      Some(EntriesOf(files, keys, keySize) + ReadEntries(SplitLines(rest)).value)
  {
    hide NoBreak, SplitLines, ReadEntries, EntryOf, Block, SizeOf;
    if keys == [] {
      assert Blocks(files, keys, keySize) + rest == rest;
      assert [] + ReadEntries(SplitLines(rest)).value == ReadEntries(SplitLines(rest)).value;
    } else {
      var n := |keys| - 1;
      var k := keys[n];
      assert k in keys;
      var size := SizeOf(files, k, keySize).value;
      BlockThen(size, k, rest);
      BlocksRead(files, keys[..n], keySize, Block(size, k) + rest);
      Regroup(Blocks(files, keys[..n], keySize), Block(size, k), rest);
      Regroup(EntriesOf(files, keys[..n], keySize), [EntryOf(size, k)], ReadEntries(SplitLines(rest)).value);
    }
  }

  lemma BlockIs(size: nat, k: DkimKey)
    ensures Block(size, k) == Unlines(BlockLines(size, k))
  {}

  // ---- The whole configuration -----------------------------------------------------------------------------------

  const COMMENT := "# Migrated from OpenDKIM by mailserver-ui."

  const SETTINGS := ["enabled = true;", "sign_authenticated = true;", "sign_local = false;", "try_fallback = false;",
                     "use_domain = \"header\";", "use_esld = true;", "check_pubkey = true;"]

  lemma CommentFits()
    ensures NoBreak(COMMENT) && IsComment(COMMENT) && Trimmed(COMMENT) && NoBreak("") && Trimmed("") && NoBreak("domain {")
  {}

  predicate SettingOk(l: string) { LineOk(l) && !IsComment(l) }

  lemma SettingsFit()
    ensures SettingOk("enabled = true;") && SettingOk("sign_authenticated = true;") && SettingOk("sign_local = false;")
  {}

  lemma MoreSettingsFit()
    ensures SettingOk("try_fallback = false;") && SettingOk("use_domain = \"header\";")
    ensures SettingOk("use_esld = true;") && SettingOk("check_pubkey = true;")
  {}

  lemma AllSettingsFit()
    ensures forall l | l in SETTINGS :: SettingOk(l)
  {
    hide SettingOk;
    SettingsFit();
    MoreSettingsFit();
  }

  lemma {:induction false} FirstLineBehind(head: seq<string>, line: string, rest: seq<string>)
    requires line !in head
    ensures FirstLine(head + [line] + rest, line) == |head|
  {
    var all := head + [line] + rest;
    if head != [] {
      assert all[1..] == head[1..] + [line] + rest;
      FirstLineBehind(head[1..], line, rest);
    }
  }

  /** A comment, settings and a blank line are read as the settings. */
  lemma SettingsRead(comment: string, settings: seq<string>)
    requires comment != "" && Trimmed(comment) && IsComment(comment)
    requires forall l | l in settings :: l != "" && Trimmed(l) && !IsComment(l)
    ensures NonBlank([comment] + settings + [""]) == [comment] + settings
    ensures DropComments([comment] + settings) == settings
  {
    hide NonBlank, DropComments, Trimmed, IsComment;
    NonBlankAppend([comment] + settings, [""]);
    NonBlankIdentity([comment] + settings);
    DropCommentsAppend([comment], settings);
    DropCommentsIdentity(settings);
    BlankAndComment(comment);
    assert [comment] + settings + [] == [comment] + settings && [] + settings == settings;
  }

  lemma BlankAndComment(comment: string)
    ensures NonBlank([""]) == []
    ensures IsComment(comment) ==> DropComments([comment]) == []
  {
    EmptyTrimmed();
    StripTrimmed("");
  }

  lemma EmptyTrimmed()
    ensures Trimmed("")
  {}

  lemma PreambleIs()
    ensures PREAMBLE == Unlines([COMMENT] + SETTINGS + [""] + ["domain {"])
  {
    hide Unlines;
    var lines := [COMMENT, "enabled = true;", "sign_authenticated = true;", "sign_local = false;", "try_fallback = false;",
                  "use_domain = \"header\";", "use_esld = true;", "check_pubkey = true;", "", "domain {"];
    assert PREAMBLE == Unlines(lines);
    assert lines == [COMMENT] + SETTINGS + [""] + ["domain {"];
  }

  lemma ClosingReads()
    ensures SplitLines("}\n") == ["}"]
  {
    assert Unlines(["}"]) == "}\n";
    Pieces();
    SplitUnlines(["}"]);
  }

  lemma NoOpening()
    ensures "domain {" !in [COMMENT] + SETTINGS + [""]
  {
    assert |"domain {"| == 8;
    assert forall l | l in [COMMENT] + SETTINGS + [""] :: |l| != 8;
  }

  /** What is written is read back. */
  lemma ConfReads(files: Files, keys: seq<DkimKey>, keySize: KeySize)
    requires AllRsa(files, keys, keySize) && forall k | k in keys :: NoBreak(k.domain) && NoBreak(k.selector)
    ensures ReadConf(PREAMBLE + Blocks(files, keys, keySize) + "}\n") == Some(Conf(SETTINGS, EntriesOf(files, keys, keySize)))
  {
    hide NoBreak, SplitLines, ReadEntries, EntryOf, Blocks, EntriesOf, PREAMBLE, Unlines, SETTINGS, COMMENT, SettingOk, DropComments, NonBlank, FirstLine, Trimmed;
    var head, body := [COMMENT] + SETTINGS + [""], Blocks(files, keys, keySize) + "}\n";
    ClosingReads();
    assert ReadEntries(["}"]) == Some([]) by { NoEntries(); }
    BlocksRead(files, keys, keySize, "}\n");
    PreambleIs();
    AllSettingsFit();
    CommentFits();
    assert forall l | l in SETTINGS :: NoBreak(l) && l != "" && Trimmed(l) && !IsComment(l) by { SettingMeans(); }
    SplitUnlinesThen(head + ["domain {"], body);
    Regroup(PREAMBLE, Blocks(files, keys, keySize), "}\n");
    NoOpening();
    assert EntriesOf(files, keys, keySize) + [] == EntriesOf(files, keys, keySize);
    FirstLineBehind(head, "domain {", SplitLines(body));
    SettingsRead(COMMENT, SETTINGS);
    var lines := head + ["domain {"] + SplitLines(body);
    assert SplitLines(PREAMBLE + Blocks(files, keys, keySize) + "}\n") == lines;
    assert lines[..|head|] == head && lines[|head| + 1..] == SplitLines(body);
  }

  lemma NoEntries()
    ensures ReadEntries(["}"]) == Some([])
  {}

  lemma SettingMeans()
    ensures forall l | SettingOk(l) :: NoBreak(l) && l != "" && Trimmed(l) && !IsComment(l)
  {}

  // ---- The theorem ----------------------------------------------------------------------------------------------

  /** A directory is listed line by line, so the names it yields hold no line break. */
  predicate NamesFit(files: Files) { forall p | p in files :: NoBreak(p) }

  lemma KeyNamesFit(files: Files, k: DkimKey)
    requires NamesFit(files) && k in OpendkimKeys(files)
    ensures NoBreak(k.domain) && NoBreak(k.selector)
  {
    hide OpendkimKeys, NoBreak;
    OpendkimKeysAre(files, k);
    var path := "opendkim/keys/" + (k.domain + "/" + k.selector + ".txt");
    assert path in files && NoBreak(path);
    PathParts("opendkim/keys/", k.domain, k.selector, ".txt");
  }

  lemma PathParts(a: string, b: string, c: string, d: string)
    requires NoBreak(a + (b + "/" + c + d))
    ensures NoBreak(b) && NoBreak(c)
  {
    hide NoBreak;
    MiddleFits(a, b, "/" + c + d);
    MiddleFits(a + b + "/", c, d);
    assert a + (b + "/" + c + d) == a + b + ("/" + c + d) == a + b + "/" + c + d;
  }

  lemma MiddleFits(a: string, b: string, c: string)
    ensures NoBreak(a + b + c) ==> NoBreak(b)
  {
    assert forall j | 0 <= j < |b| :: (a + b + c)[|a| + j] == b[j];
  }

  /** MAIN: after a successful migration the signing configuration, read back, holds the seven settings and one entry
      per migrated key, in order, with its domain and selector; its path, below the configuration directory, is that
      of a file that holds the private key OpenDKIM signed with, beside one that holds its public record. */
  lemma SigningConfReads(files: Files, keySize: KeySize)
    requires Conditions(files, Keys(files), keySize) && Migrate(files, true, keySize).1.Ok? && NamesFit(files)
    ensures var after, keys := Migrate(files, true, keySize).0, Keys(files);
      var conf := ReadConf(Read(after, "rspamd/override.d/dkim_signing.conf"));
      conf.Some? &&
      conf.value.settings == ["enabled = true;", "sign_authenticated = true;", "sign_local = false;", "try_fallback = false;",
                              "use_domain = \"header\";", "use_esld = true;", "check_pubkey = true;"] &&
      |conf.value.entries| == |keys| &&
      forall i | 0 <= i < |keys| ::
        var e, k, size := conf.value.entries[i], keys[i], SizeOf(files, keys[i], keySize).value;
        var name := "rspamd/dkim/" + ("rsa-" + (PrintNat(size) + "-" + k.selector + "-" + k.domain));
        e.domain == k.domain && e.selector == k.selector && e.path == "/tmp/docker-mailserver/" + (name + ".private.txt") &&
        Read(after, name + ".private.txt") == Read(files, "opendkim/keys/" + (k.domain + "/" + k.selector + ".private")) &&
        Read(after, name + ".public.txt") == Read(files, "opendkim/keys/" + (k.domain + "/" + k.selector + ".txt"))
  {
    hide NoBreak, Keys, Migrate, Blocks, PREAMBLE, EntriesOf, ReadConf, NamesFit, NamesApart, NothingHidden, Migratable;
    var after, keys := Migrate(files, true, keySize).0, Keys(files);
    forall k | k in keys ensures NoBreak(k.domain) && NoBreak(k.selector) { KeyNamesFit(files, k); }
    MigrationFaithful(files, keySize, DkimKey("", "", "", ""), "");
    ConfReads(files, keys, keySize);
    EntriesAre(files, keys, keySize);
    forall i | 0 <= i < |keys|
      ensures var k, size := keys[i], SizeOf(files, keys[i], keySize).value;
        var name := "rspamd/dkim/" + ("rsa-" + (PrintNat(size) + "-" + k.selector + "-" + k.domain));
        PrivateTarget(size, k) == name + ".private.txt" &&
        Read(after, name + ".private.txt") == Read(files, "opendkim/keys/" + (k.domain + "/" + k.selector + ".private")) &&
        Read(after, name + ".public.txt") == Read(files, "opendkim/keys/" + (k.domain + "/" + k.selector + ".txt")) {
      var k, size := keys[i], SizeOf(files, keys[i], keySize).value;
      assert k in keys;
      MigrationFaithful(files, keySize, k, "");
      TargetNames(size, k);
    }
  }

  lemma TargetNames(size: nat, k: DkimKey)
    ensures var name := "rspamd/dkim/" + ("rsa-" + (PrintNat(size) + "-" + k.selector + "-" + k.domain));
      PrivateTarget(size, k) == name + ".private.txt" && PublicTarget(size, k) == name + ".public.txt"
  {}
}
