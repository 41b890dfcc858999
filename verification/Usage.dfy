/** Disk usage per mailbox (backend/app/services/mailbox_service.py, get_usage): rows of
    `doveadm -f tab quota get -A` aggregated over the known accounts. */
module Usage {
  import opened Text
  import opened Container
  import opened Provisioning

  // ---- Reading the report ---------------------------------------------------------------------------

  function Glue(parts: seq<string>): string { if parts == [] then "" else parts[0] + Glue(parts[1..]) }

  lemma {:induction false} GlueDigits(parts: seq<string>)
    requires forall p | p in parts :: AllDigits(p)
    ensures AllDigits(Glue(parts))
  {
    if parts != [] {
      GlueDigits(parts[1..]);
      assert AllDigits(parts[0]) && AllDigits(Glue(parts[1..]));
    }
  }

  /** Python's `int(s)`: a sign, then digits that single underscores may separate. */
  function PyInt(s: string): Option<int> {
    var signed := s != "" && s[0] in "+-";
    var groups := SplitOn(if signed then s[1..] else s, '_');
    if exists p | p in groups :: p == "" || !AllDigits(p) then None
    else
      GlueDigits(groups);
      var n: int := ParseNat(Glue(groups));
      Some(if signed && s[0] == '-' then -n else n)
  }

  /** A numeric cell; None for the dash that means no limit and for anything unreadable. */
  function Amount(cell: string): Option<int> {
    var cleaned := Strip(cell);
    if cleaned == "" || cleaned == "-" then None else PyInt(cleaned)
  }

  datatype Row = Row(email: string, kind: string, value: Option<int>, limit: Option<int>)

  function ParseRow(line: string): Option<Row> {
    var fields := SplitOn(line, '\t');
    if |fields| < 5 then None
    else Some(Row(Lower(Strip(fields[0])), Strip(fields[2]), Amount(fields[3]), Amount(fields[4])))
  }

  predicate Matches(line: string, email: string, kind: string) {
    ParseRow(line).Some? && ParseRow(line).value.email == email && ParseRow(line).value.kind == kind
  }

  /** The last row about an account decides. */
  function LastRow(lines: seq<string>, email: string, kind: string): Option<Row> {
    if lines == [] then None
    else
      var n := |lines| - 1;
      if Matches(lines[n], email, kind) then ParseRow(lines[n]) else LastRow(lines[..n], email, kind)
  }

  // ---- One account -------------------------------------------------------------------------------------

  const UNIT := 1024

  datatype Usage = Usage(email: string, used: int, limit: Option<int>, percent: Option<int>, messages: int)

  function OrZero(v: Option<int>): int { if v.Some? then v.value else 0 }

  /** A limit of zero counts as none. */
  function Capped(limit: Option<int>): Option<int> { if limit.Some? && limit.value != 0 then Some(limit.value * UNIT) else None }

  function Tally(lines: seq<string>, email: string): Usage {
    var storage, message := LastRow(lines, email, "STORAGE"), LastRow(lines, email, "MESSAGE");
    Usage(email,
      if storage.Some? then OrZero(storage.value.value) * UNIT else 0,
      if storage.Some? then Capped(storage.value.limit) else None,
      None,
      if message.Some? then OrZero(message.value.value) else 0)
  }

  /** Python's `round`: to the nearest integer, halves to the even one. */
  function Round(x: real): int {
    var low := x.Floor;
    var rest := x - low as real;
    if rest < 0.5 || (rest == 0.5 && low % 2 == 0) then low else low + 1
  }

  function Percent(used: int, limit: int): int
    requires limit != 0
  {
    var p := Round(used as real / limit as real * 100.0);
    if p < 100 then p else 100
  }

  function WithPercent(u: Usage): Usage {
    if u.limit.Some? && u.limit.value != 0 then u.(percent := Some(Percent(u.used, u.limit.value))) else u
  }

  // ---- The summary -------------------------------------------------------------------------------------

  /** The addresses the mailbox list shows. */
  function Mailboxes(accounts: string): set<string> { set a | a in Addresses(ReadLines(accounts)) && '@' in a }

  /** Descending usage; equal usage in the order of the addresses. */
  predicate Before(a: Usage, b: Usage) { a.used > b.used || (a.used == b.used && StrLe(a.email, b.email)) }

  function Insert(u: Usage, us: seq<Usage>): (r: seq<Usage>)
    ensures multiset(r) == multiset(us) + multiset{u}
  {
    if us == [] || us[0].used <= u.used then [u] + us
    else
      assert us == [us[0]] + us[1..];
      [us[0]] + Insert(u, us[1..])
  }

  /** `sorted(us, key=used, reverse=True)`, which keeps equal elements in order. */
  function SortByUsed(us: seq<Usage>): (r: seq<Usage>)
    ensures multiset(r) == multiset(us)
  {
    if us == [] then []
    else
      assert us == [us[0]] + us[1..];
      Insert(us[0], SortByUsed(us[1..]))
  }

  function TotalUsed(us: seq<Usage>): int { if us == [] then 0 else us[0].used + TotalUsed(us[1..]) }

  function TotalLimit(us: seq<Usage>): int { if us == [] then 0 else OrZero(us[0].limit) + TotalLimit(us[1..]) }

  datatype Summary = Summary(mailboxes: seq<Usage>, totalUsed: int, totalLimit: Option<int>)

  predicate AllCapped(us: seq<Usage>) { us != [] && forall u | u in us :: u.limit.Some? && u.limit.value != 0 }

  function Finished(emails: seq<string>, lines: seq<string>): seq<Usage> {
    seq(|emails|, i requires 0 <= i < |emails| => WithPercent(Tally(lines, emails[i])))
  }

  function SummaryOf(accounts: set<string>, lines: seq<string>): Summary {
    var us := SortByUsed(Finished(Sorted(accounts), lines));
    Summary(us, TotalUsed(us), if AllCapped(us) then Some(TotalLimit(us)) else None)
  }

  // ---- The loops -----------------------------------------------------------------------------------------

  lemma TallyOneMore(lines: seq<string>, k: nat, email: string)
    requires k < |lines|
    ensures var row, before := ParseRow(lines[k]), Tally(lines[..k], email);
      Tally(lines[..k + 1], email) ==
        if row.None? || row.value.email != email then before
        else if row.value.kind == "STORAGE" then before.(used := OrZero(row.value.value) * UNIT, limit := Capped(row.value.limit))
        else if row.value.kind == "MESSAGE" then before.(messages := OrZero(row.value.value))
        else before
  {
    hide ParseRow;
    assert lines[..k + 1][..k] == lines[..k];
    assert "STORAGE"[0] != "MESSAGE"[0];
  }

  /** MAIN (method): the dictionary filled row by row gives the declared summary. */
  method GetUsage(output: string, accounts: string) returns (summary: Summary)
    ensures var report := SplitLines(output);
      summary == SummaryOf(Mailboxes(accounts), if report == [] then [] else report[1..])
  {
    hide Tally, SplitLines, Addresses, ReadLines, Sorted, SplitOn, Strip, Lower, Amount, OrZero, Capped, Percent;
    var report := SplitLines(output);
    var lines := if report == [] then [] else report[1..];
    var order := Sorted(Mailboxes(accounts));
    var usages := map e | e in Mailboxes(accounts) :: Usage(e, 0, None, None, 0);
    forall e | e in usages ensures usages[e] == Tally(lines[..0], e) { NoRows(e); }
    for k := 0 to |lines|
      invariant usages.Keys == Mailboxes(accounts) && forall e | e in usages :: usages[e] == Tally(lines[..k], e)
    {
      usages := CountRow(usages, lines, k, lines[k]);
    }
    assert lines[..|lines|] == lines;
    var us: seq<Usage> := [];
    for k := 0 to |order|
      invariant us == Finished(order[..k], lines)
    {
      us := us + [WithPercent(usages[order[k]])];
    }
    assert order[..|order|] == order;
    us := SortByUsed(us);
    summary := Summary(us, TotalUsed(us), if AllCapped(us) then Some(TotalLimit(us)) else None);
  }

  lemma NoRows(email: string)
    ensures Tally([], email) == Usage(email, 0, None, None, 0)
  {}

  /** The body of the loop over the rows. */
  method CountRow(before: map<string, Usage>, ghost lines: seq<string>, ghost k: nat, line: string) returns (usages: map<string, Usage>)
    requires k < |lines| && line == lines[k]
    requires forall e | e in before :: before[e] == Tally(lines[..k], e)
    ensures usages.Keys == before.Keys && forall e | e in usages :: usages[e] == Tally(lines[..k + 1], e)
  {
    hide Tally, ParseRow, Capped, OrZero;
    forall e | e in before
      ensures Tally(lines[..k + 1], e) == Tally(lines[..k], e) || (ParseRow(line).Some? && ParseRow(line).value.email == e) {
      TallyOneMore(lines, k, e);
    }
    usages := before;
    var row := ParseRow(line);
    if row.None? || row.value.email !in before { return; }
    var email := row.value.email;
    TallyOneMore(lines, k, email);
    var usage := before[email];
    if row.value.kind == "STORAGE" {
      usage := usage.(used := OrZero(row.value.value) * UNIT, limit := Capped(row.value.limit));
    } else if row.value.kind == "MESSAGE" {
      usage := usage.(messages := OrZero(row.value.value));
    }
    usages := before[email := usage];
  }

  // ---- What the summary promises -----------------------------------------------------------------------------

  /** The row that decides is the last one about the account; without one there is nothing. */
  lemma {:induction false} LastRowDecides(lines: seq<string>, email: string, kind: string, k: nat)
    requires k < |lines| && Matches(lines[k], email, kind) && forall j | k < j < |lines| :: !Matches(lines[j], email, kind)
    ensures LastRow(lines, email, kind) == ParseRow(lines[k]) && ParseRow(lines[k]).Some?
  {
    if k < |lines| - 1 {
      hide ParseRow, Matches;
      LastRowDecides(lines[..|lines| - 1], email, kind, k);
    }
  }

  lemma {:induction false} NoRowDecides(lines: seq<string>, email: string, kind: string)
    requires forall l | l in lines :: !Matches(l, email, kind)
    ensures LastRow(lines, email, kind) == None
  {
    if lines != [] {
      hide ParseRow, Matches;
      assert lines[|lines| - 1] in lines;
      NoRowDecides(lines[..|lines| - 1], email, kind);
    }
  }

  /** MAIN: an account without rows is reported with nothing used and no limit. */
  lemma AccountWithoutRows(lines: seq<string>, email: string)
    requires forall l | l in lines :: !Matches(l, email, "STORAGE") && !Matches(l, email, "MESSAGE")
    ensures Tally(lines, email) == Usage(email, 0, None, None, 0)
  {
    hide Matches, ParseRow, LastRow;
    NoRowDecides(lines, email, "STORAGE");
    NoRowDecides(lines, email, "MESSAGE");
  }

  predicate DistinctEmails(us: seq<Usage>) { forall i, j | 0 <= i < j < |us| :: us[i].email != us[j].email }

  predicate Ordered(us: seq<Usage>) { forall i, j | 0 <= i < j < |us| :: Before(us[i], us[j]) }

  predicate ByAddress(us: seq<Usage>) { forall i, j | 0 <= i < j < |us| :: StrLe(us[i].email, us[j].email) && us[i].email != us[j].email }

  lemma MembersOf(a: seq<Usage>, b: seq<Usage>)
    requires multiset(a) == multiset(b)
    ensures forall u :: u in a <==> u in b
  {
    forall u ensures u in a <==> u in b { assert u in multiset(a) <==> u in multiset(b); }
  }

  lemma OrderedCons(u: Usage, us: seq<Usage>)
    requires Ordered(us) && DistinctEmails(us) && forall x | x in us :: Before(u, x) && u.email != x.email
    ensures Ordered([u] + us) && DistinctEmails([u] + us)
  {
    hide Before;
  }

  lemma OrderedTail(us: seq<Usage>)
    requires us != [] && Ordered(us) && DistinctEmails(us)
    ensures Ordered(us[1..]) && DistinctEmails(us[1..]) && forall x | x in us[1..] :: Before(us[0], x) && us[0].email != x.email
  {
    hide Before;
  }

  /** A record goes before those it precedes by address, unless they use more. */
  lemma {:induction false} InsertOrders(u: Usage, us: seq<Usage>)
    requires Ordered(us) && DistinctEmails(us) && forall x | x in us :: StrLe(u.email, x.email) && x.email != u.email
    ensures Ordered(Insert(u, us)) && DistinctEmails(Insert(u, us))
  {
    hide StrLe, Ordered, DistinctEmails;
    if us == [] {
      OrderedCons(u, us);
    } else {
      OrderedTail(us);
      assert us == [us[0]] + us[1..];
      if us[0].used > u.used {
        InsertOrders(u, us[1..]);
        MembersOf(Insert(u, us[1..]), us[1..] + [u]);
        assert us[0] in us;
        OrderedCons(us[0], Insert(u, us[1..]));
      } else {
        forall x | x in us ensures Before(u, x) { assert x == us[0] || x in us[1..]; }
        OrderedCons(u, us);
      }
    }
  }

  lemma {:induction false} SortOrders(us: seq<Usage>)
    requires ByAddress(us)
    ensures Ordered(SortByUsed(us)) && DistinctEmails(SortByUsed(us))
  {
    hide StrLe, Insert;
    if us != [] {
      var rest := us[1..];
      assert forall i, j | 0 <= i < j < |rest| :: rest[i] == us[i + 1] && rest[j] == us[j + 1];
      SortOrders(rest);
      MembersOf(SortByUsed(rest), rest);
      InsertOrders(us[0], SortByUsed(rest));
    }
  }

  /** MAIN: the result lists exactly the accounts, once each, in descending usage (ties by address), each with
      what its last rows say. */
  lemma AccountsListedOnce(accounts: set<string>, lines: seq<string>)
    ensures var us := SummaryOf(accounts, lines).mailboxes;
      DistinctEmails(us) && Ordered(us) &&
      (forall a :: a in accounts <==> exists u :: u in us && u.email == a) &&
      (forall u | u in us :: u == WithPercent(Tally(lines, u.email)))
  {
    hide Tally, StrLe, Percent, SortByUsed, Sorted;
    var order := Sorted(accounts);
    var finished := Finished(order, lines);
    forall i | 0 <= i < |order| ensures finished[i].email == order[i] { TallyEmail(lines, order[i]); }
    SortOrders(finished);
    var us := SortByUsed(finished);
    MembersOf(us, finished);
    forall a | a in accounts ensures exists u :: u in us && u.email == a {
      assert a in order;
      var i :| 0 <= i < |order| && order[i] == a;
      assert finished[i] in us;
    }
    forall u | u in us ensures u.email in accounts && u == WithPercent(Tally(lines, u.email)) {
      assert u in finished;
      var i :| 0 <= i < |finished| && finished[i] == u;
      assert order[i] in order;
    }
  }

  lemma TallyEmail(lines: seq<string>, email: string)
    ensures Tally(lines, email).email == email
  {}

  lemma {:induction false} InsertTotals(u: Usage, us: seq<Usage>)
    ensures TotalUsed(Insert(u, us)) == u.used + TotalUsed(us) && TotalLimit(Insert(u, us)) == OrZero(u.limit) + TotalLimit(us)
  {
    if us != [] && us[0].used > u.used {
      InsertTotals(u, us[1..]);
      assert Insert(u, us)[1..] == Insert(u, us[1..]);
    } else {
      assert ([u] + us)[1..] == us;
    }
  }

  lemma {:induction false} SortTotals(us: seq<Usage>)
    ensures TotalUsed(SortByUsed(us)) == TotalUsed(us) && TotalLimit(SortByUsed(us)) == TotalLimit(us)
  {
    if us != [] {
      SortTotals(us[1..]);
      InsertTotals(us[0], SortByUsed(us[1..]));
    }
  }

  /** The sum over accounts of what each uses, and of what each may use. */
  function SumUsed(emails: seq<string>, lines: seq<string>): int {
    if emails == [] then 0 else Tally(lines, emails[0]).used + SumUsed(emails[1..], lines)
  }

  function SumLimits(emails: seq<string>, lines: seq<string>): int {
    if emails == [] then 0 else OrZero(Tally(lines, emails[0]).limit) + SumLimits(emails[1..], lines)
  }

  lemma {:induction false} FinishedTotals(emails: seq<string>, lines: seq<string>)
    ensures TotalUsed(Finished(emails, lines)) == SumUsed(emails, lines)
    ensures TotalLimit(Finished(emails, lines)) == SumLimits(emails, lines)
  {
    hide Tally, Percent;
    if emails != [] {
      FinishedTotals(emails[1..], lines);
      assert Finished(emails, lines)[1..] == Finished(emails[1..], lines);
    }
  }

  lemma ListedHaveAccounts(accounts: set<string>, lines: seq<string>)
    ensures SummaryOf(accounts, lines).mailboxes != [] ==> accounts != {}
  {
    hide SummaryOf, WithPercent;
    AccountsListedOnce(accounts, lines);
    var us := SummaryOf(accounts, lines).mailboxes;
    if us != [] { assert us[0] in us && us[0].email in accounts; }
  }

  /** MAIN: the totals conserve the accounts' figures; the overall limit is there exactly when there is an
      account and every account is capped. */
  lemma TotalsConserve(accounts: set<string>, lines: seq<string>)
    ensures var s := SummaryOf(accounts, lines);
      s.totalUsed == SumUsed(Sorted(accounts), lines) &&
      (s.totalLimit.Some? <==> accounts != {} && forall a | a in accounts :: Tally(lines, a).limit.Some?) &&
      (s.totalLimit.Some? ==> s.totalLimit.value == SumLimits(Sorted(accounts), lines))
  {
    hide Tally, Percent, SortByUsed, Sorted, TotalUsed, TotalLimit;
    var order := Sorted(accounts);
    var us := SummaryOf(accounts, lines).mailboxes;
    SortTotals(Finished(order, lines));
    FinishedTotals(order, lines);
    AccountsListedOnce(accounts, lines);
    forall u | u in us ensures u.limit == Tally(lines, u.email).limit && (u.limit.Some? ==> u.limit.value != 0) {
      TallyLimit(lines, u.email);
    }
    if a :| a in accounts {
      var u :| u in us && u.email == a;
      forall b | b in accounts && Tally(lines, b).limit.None? ensures !AllCapped(us) {
        var v :| v in us && v.email == b;
      }
    } else {
      ListedHaveAccounts(accounts, lines);
    }
  }

  lemma TallyLimit(lines: seq<string>, email: string)
    ensures Tally(lines, email).limit.Some? ==> Tally(lines, email).limit.value != 0
    ensures Tally(lines, email).percent == None
  {}

  /** `round` is off by at most one half. */
  lemma RoundIsNearest(x: real)
    ensures -0.5 <= Round(x) as real - x <= 0.5
  {}

  predicate NonNegative(line: string) {
    ParseRow(line).Some? ==> OrZero(ParseRow(line).value.value) >= 0 && OrZero(ParseRow(line).value.limit) >= 0
  }

  lemma {:induction false} LastRowIsARow(lines: seq<string>, email: string, kind: string)
    requires LastRow(lines, email, kind).Some?
    ensures exists l :: l in lines && ParseRow(l) == LastRow(lines, email, kind)
  {
    hide ParseRow, Matches;
    var n := |lines| - 1;
    if Matches(lines[n], email, kind) { assert lines[n] in lines; } else { LastRowIsARow(lines[..n], email, kind); }
  }

  /** MAIN: with non-negative cells every percentage lies in 0..100, is there exactly for capped accounts, and
      below 100 is the nearest integer to the share of the limit. */
  lemma PercentagesInRange(accounts: set<string>, lines: seq<string>, u: Usage)
    requires u in SummaryOf(accounts, lines).mailboxes && forall l | l in lines :: NonNegative(l)
    ensures u.percent.Some? <==> u.limit.Some?
    ensures u.percent.Some? ==> u.limit.value > 0 && 0 <= u.percent.value <= 100
    ensures u.percent.Some? && u.percent.value < 100 ==> (
      var share := u.used as real / u.limit.value as real * 100.0;
      -0.5 <= u.percent.value as real - share <= 0.5)
  {
    hide ParseRow, SummaryOf;
    AccountsListedOnce(accounts, lines);
    var storage := LastRow(lines, u.email, "STORAGE");
    if storage.Some? {
      LastRowIsARow(lines, u.email, "STORAGE");
      var l :| l in lines && ParseRow(l) == storage;
      assert NonNegative(l);
    }
    if u.limit.Some? {
      var share := u.used as real / u.limit.value as real * 100.0;
      assert u.used as real / u.limit.value as real >= 0.0;
      RoundIsNearest(share);
    }
  }

  lemma {:induction false} LastRowSkips(a: seq<string>, line: string, b: seq<string>, email: string, kind: string)
    requires !Matches(line, email, kind)
    ensures LastRow(a + [line] + b, email, kind) == LastRow(a + b, email, kind)
  {
    hide Matches, ParseRow;
    if b == [] {
      assert a + [line] + b == a + [line] && a + b == a;
      assert (a + [line])[..|a|] == a;
    } else {
      var n := |b| - 1;
      assert (a + [line] + b)[..|a| + 1 + n] == a + [line] + b[..n];
      assert (a + b)[..|a| + n] == a + b[..n];
      LastRowSkips(a, line, b[..n], email, kind);
    }
  }

  /** MAIN: a row about anything but an account, of another kind, or too short, changes nothing wherever it stands. */
  lemma UnknownRowsIgnored(accounts: set<string>, a: seq<string>, line: string, b: seq<string>)
    requires ParseRow(line).None? || ParseRow(line).value.email !in accounts || ParseRow(line).value.kind !in {"STORAGE", "MESSAGE"}
    ensures SummaryOf(accounts, a + [line] + b) == SummaryOf(accounts, a + b)
  {
    hide ParseRow, LastRow, Sorted, Percent;
    var order := Sorted(accounts);
    forall i | 0 <= i < |order| ensures Tally(a + [line] + b, order[i]) == Tally(a + b, order[i]) {
      assert order[i] in accounts;
      LastRowSkips(a, line, b, order[i], "STORAGE");
      LastRowSkips(a, line, b, order[i], "MESSAGE");
    }
    assert Finished(order, a + [line] + b) == Finished(order, a + b);
  }
}
