/** How the rows of the quota report are read, and the figures of an account in terms of their text. */
module UsageRows {
  import opened Text
  import opened Container
  import opened Provisioning
  import opened Usage

  // ---- Cells -----------------------------------------------------------------------------------------------

  lemma DigitsNoSpace(s: string)
    requires AllDigits(s)
    ensures NoSpace(s) && '_' !in s && (s != "" ==> s[0] != '-' && s[0] != '+')
  {
    DigitIsPlain();
    hide IsDigit, IsSpace;
  }

  lemma DigitIsPlain()
    ensures forall c | IsDigit(c) :: !IsSpace(c) && c != '_' && c != '-' && c != '+'
  {}

  lemma {:induction false} GlueOne(s: string)
    ensures Glue([s]) == s
  {
    assert [s][1..] == [];
  }

  lemma PlainInt(digits: string)
    requires digits != "" && AllDigits(digits)
    ensures PyInt(digits) == Some(ParseNat(digits)) && PyInt("-" + digits) == Some(0 - ParseNat(digits) as int)
  {
    DigitsNoSpace(digits);
    GlueOne(digits);
    NotInIndexOf(digits, '_');
    assert SplitOn(digits, '_') == [digits];
    assert ("-" + digits)[1..] == digits;
    assert digits in [digits];
  }

  /** MAIN: a plus changes nothing, single underscores between digits do not count, and anything else is no number. */
  lemma IntReads(a: string, b: string, bad: char)
    requires a != "" && b != "" && AllDigits(a) && AllDigits(b) && !IsDigit(bad) && bad != '_'
    ensures PyInt("+" + a) == Some(ParseNat(a)) && PyInt(a + ['_'] + b) == Some(ParseNat(a + b))
    ensures PyInt(a + ['_']) == None && PyInt(a + ['_'] + (['_'] + b)) == None && PyInt(a + [bad] + b) == None
  {
    hide PyInt, ParseNat;
    PlusInt(a);
    TwoGroupsInt(a, b);
    TwoGroupsInt(a, "");
    assert a + ['_'] + "" == a + ['_'];
    DoubledInt(a, b);
    BadGroup(a, bad, b);
  }

  lemma PlusInt(digits: string)
    requires digits != "" && AllDigits(digits)
    ensures PyInt("+" + digits) == Some(ParseNat(digits))
  {
    assert ("+" + digits)[1..] == digits;
    PlainGroup(digits);
    hide SplitOn, Glue, ParseNat;
  }

  /** Without a sign the number is that of the groups between underscores. */
  lemma GroupsInt(s: string, groups: seq<string>)
    requires s != "" && s[0] != '+' && s[0] != '-' && groups == SplitOn(s, '_')
    ensures (exists p | p in groups :: p == "" || !AllDigits(p)) ==> PyInt(s) == None
    ensures (forall p | p in groups :: p != "" && AllDigits(p)) ==> AllDigits(Glue(groups)) && PyInt(s) == Some(ParseNat(Glue(groups)))
  {
    hide SplitOn, Glue, ParseNat;
    if forall p | p in groups :: p != "" && AllDigits(p) { GlueDigits(groups); }
  }

  lemma TwoGroupsInt(a: string, b: string)
    requires a != "" && AllDigits(a) && AllDigits(b)
    ensures PyInt(a + ['_'] + b) == if b == "" then None else Some(ParseNat(a + b))
  {
    hide PyInt, SplitOn, Glue, ParseNat, AllDigits;
    DigitsNoSpace(a);
    assert (a + ['_'] + b)[0] == a[0];
    TwoGroups(a, b);
    GroupsInt(a + ['_'] + b, [a, b]);
  }

  lemma DoubledInt(a: string, b: string)
    requires a != "" && AllDigits(a)
    ensures PyInt(a + ['_'] + (['_'] + b)) == None
  {
    hide PyInt, Glue, ParseNat, AllDigits;
    DigitsNoSpace(a);
    var s, tail := a + ['_'] + (['_'] + b), ['_'] + b;
    PartitionAt(a, '_', tail);
    assert s[0] == a[0];
    assert IndexOf(tail, '_') == 0 && tail[..0] == "";
    assert SplitOn(tail, '_')[0] == "";
    var groups := SplitOn(s, '_');
    assert groups == [a] + SplitOn(tail, '_');
    hide SplitOn;
    assert groups[1] == "" && groups[1] in groups;
    GroupsInt(s, groups);
  }

  lemma PlainGroup(digits: string)
    requires digits != "" && AllDigits(digits)
    ensures SplitOn(digits, '_') == [digits] && Glue([digits]) == digits && digits in [digits]
  {
    DigitsNoSpace(digits);
    NotInIndexOf(digits, '_');
    GlueOne(digits);
  }

  lemma TwoGroups(a: string, b: string)
    requires AllDigits(a) && AllDigits(b)
    ensures SplitOn(a + ['_'] + b, '_') == [a, b] && Glue([a, b]) == a + b && b in [a, b]
  {
    DigitsNoSpace(a);
    DigitsNoSpace(b);
    PartitionAt(a, '_', b);
    NotInIndexOf(b, '_');
    assert [a, b][1..] == [b];
    GlueOne(b);
  }

  lemma BadGroup(a: string, bad: char, b: string)
    requires a != "" && AllDigits(a) && AllDigits(b) && !IsDigit(bad) && bad != '_'
    ensures PyInt(a + [bad] + b) == None
  {
    var s := a + [bad] + b;
    DigitsNoSpace(a);
    DigitsNoSpace(b);
    assert s[|a|] == bad && s[0] == a[0];
    assert '_' !in s;
    NotInIndexOf(s, '_');
    assert SplitOn(s, '_') == [s] && s in [s] && !AllDigits(s);
  }

  /** MAIN: a cell of digits is their number, negative behind a minus; white space around it does not count, and a
      dash or nothing is no amount. */
  lemma AmountReads(before: string, n: nat, after: string)
    requires AllSpace(before) && AllSpace(after)
    ensures Amount(before + PrintNat(n) + after) == Some(n) && Amount(before + ("-" + PrintNat(n)) + after) == Some(0 - n as int)
    ensures Amount(before + "-" + after) == None && Amount(before) == None
  {
    hide Strip, PyInt, Trimmed, AllSpace, PrintNat;
    var digits := PrintNat(n);
    DigitsNoSpace(digits);
    ParsePrint(n);
    PlainInt(digits);
    DashTrimmed(digits);
    StripMiddle(before, digits, after);
    StripMiddle(before, "-" + digits, after);
    StripMiddle(before, "-", after);
    NothingVisible(before);
  }

  lemma NothingVisible(s: string)
    requires AllSpace(s)
    ensures Strip(s) == ""
  {
    StripMiddle(s, "", "");
    assert s + "" + "" == s;
  }

  lemma DashTrimmed(digits: string)
    requires digits != "" && NoSpace(digits)
    ensures Trimmed(digits) && Trimmed("-" + digits) && Trimmed("-") && Trimmed("")
  {
    assert ("-" + digits)[|digits|] == digits[|digits| - 1];
    assert !IsSpace('-');
  }

  // ---- Rows ------------------------------------------------------------------------------------------------

  predicate Cell(s: string) { '\t' !in s }

  /** MAIN: of the cells of a row, between tabs, the first is the address, the third the kind, the fourth the value and
      the fifth the limit; with fewer it is no row. */
  lemma RowReads(cells: seq<string>)
    requires cells != [] && forall c | c in cells :: Cell(c)
    ensures ParseRow(Join(cells, '\t')) ==
      if |cells| < 5 then None else Some(Row(Lower(Strip(cells[0])), Strip(cells[2]), Amount(cells[3]), Amount(cells[4])))
  {
    hide Amount, Strip;
    SplitJoin(cells, '\t');
  }

  /** A row of the report; a dash stands for no limit. */
  function RowText(email: string, name: string, kind: string, value: nat, limit: Option<nat>): string {
    Join([email, name, kind, PrintNat(value), if limit.Some? then PrintNat(limit.value) else "-", "0"], '\t')
  }

  lemma PlainCells(n: nat)
    ensures Cell(PrintNat(n)) && Cell("-") && Cell("0") && Amount(PrintNat(n)) == Some(n) && Amount("-") == None
  {
    hide Amount, PrintNat;
    AmountReads("", n, "");
    assert "" + PrintNat(n) + "" == PrintNat(n) && "" + "-" + "" == "-";
    assert !IsDigit('\t');
  }

  lemma RowTextReads(email: string, name: string, kind: string, value: nat, limit: Option<nat>)
    requires Cell(email) && Cell(name) && Cell(kind) && Normalise(email) == email && Trimmed(kind)
    ensures ParseRow(RowText(email, name, kind, value, limit)) == Some(Row(email, kind, Some(value), limit))
  {
    hide Amount, Strip, PrintNat, Cell;
    var cells := [email, name, kind, PrintNat(value), if limit.Some? then PrintNat(limit.value) else "-", "0"];
    PlainCells(value);
    if limit.Some? { PlainCells(limit.value); }
    StripTrimmed(kind);
    RowReads(cells);
  }

  /** MAIN: the last storage row of an account gives its use and its limit in kibibytes, a limit of zero being none,
      and the last message row its number of messages. */
  lemma FiguresOf(lines: seq<string>, email: string, name: string, value: nat, limit: Option<nat>, k: nat)
    requires Cell(email) && Cell(name) && Normalise(email) == email && k < |lines|
    ensures lines[k] == RowText(email, name, "STORAGE", value, limit) && (forall j | k < j < |lines| :: !Matches(lines[j], email, "STORAGE")) ==>
      Tally(lines, email).used == value * 1024 &&
      Tally(lines, email).limit == if limit.Some? && limit.value != 0 then Some(limit.value * 1024) else None
    ensures lines[k] == RowText(email, name, "MESSAGE", value, limit) && (forall j | k < j < |lines| :: !Matches(lines[j], email, "MESSAGE")) ==>
      Tally(lines, email).messages == value
  {
    hide ParseRow, RowText, LastRow;
    KindCells();
    RowTextReads(email, name, "STORAGE", value, limit);
    RowTextReads(email, name, "MESSAGE", value, limit);
    if lines[k] == RowText(email, name, "STORAGE", value, limit) && forall j | k < j < |lines| :: !Matches(lines[j], email, "STORAGE") {
      LastRowDecides(lines, email, "STORAGE", k);
    }
    if lines[k] == RowText(email, name, "MESSAGE", value, limit) && forall j | k < j < |lines| :: !Matches(lines[j], email, "MESSAGE") {
      LastRowDecides(lines, email, "MESSAGE", k);
    }
  }

  lemma KindCells()
    ensures Cell("STORAGE") && Trimmed("STORAGE") && Cell("MESSAGE") && Trimmed("MESSAGE")
  {}

  // ---- Percentages -------------------------------------------------------------------------------------------

  /** MAIN: a percentage is the nearest integer to the share, the even one of two equally near, and at most 100. */
  lemma PercentIs(used: int, limit: int, n: int)
    requires limit != 0
    ensures var share := used as real / limit as real * 100.0;
      Percent(used, limit) == n <==>
        if n == 100 then share >= 99.5
        else n < 100 && n as real - 0.5 <= share <= n as real + 0.5 && (share == n as real - 0.5 || share == n as real + 0.5 ==> n % 2 == 0)
  {
    var share := used as real / limit as real * 100.0;
    RoundIs(share, n);
    RoundIs(share, Round(share));
  }

  lemma RoundIs(x: real, n: int)
    ensures Round(x) == n <==> n as real - 0.5 <= x <= n as real + 0.5 && (x == n as real - 0.5 || x == n as real + 0.5 ==> n % 2 == 0)
  {
    var low := x.Floor;
    if n < low || n > low + 1 { assert !(n as real - 0.5 <= x <= n as real + 0.5); }
  }

  // ---- Accounts ----------------------------------------------------------------------------------------------

  /** The accounts reported are those with an at sign among the parts of account lines before the first bar. */
  lemma ReportedAccounts(accounts: string, a: string)
    ensures a in Mailboxes(accounts) <==> '@' in a && exists l :: l in ReadLines(accounts) && Normalise(l[..IndexOf(l, '|')]) == a
  {
    hide ReadLines, Normalise, Addresses;
    AddressesAre(ReadLines(accounts));
    forall l ensures Owner(l) == Normalise(l[..IndexOf(l, '|')]) { OwnerIs(l); }
  }

  lemma OwnerIs(l: string)
    ensures Owner(l) == Normalise(l[..IndexOf(l, '|')])
  {}
}
