/** The three text files and the Sieve filters seen as one map from address to entry, and what every
    run of mailbox operations keeps true of it. */
module MailboxStore {
  import opened Text
  import opened Container
  import opened Aliases
  import opened Provisioning
  import opened Mailboxes

  /** Everything the directory holds about one address. */
  datatype Entry = Entry(hashes: seq<string>, quota: Option<string>, aliases: set<string>, sieve: Option<string>)

  function AliasesOf(lines: seq<string>, target: string): set<string>
    requires forall l | l in lines :: LineOk(l)
  {
    set p | p in Pairs(lines) && p.1 == target :: p.0
  }

  function EntryOf(files: Files, a: string): Entry {
    Entry(HashesOf(AccountLines(files), a), QuotaOf(files, a), AliasesOf(AliasLines(files), a),
          if SieveFile(a) in files then Some(files[SieveFile(a)]) else None)
  }

  /** One account at most, and nothing about an address that is not an account. */
  predicate EntrySound(a: string, e: Entry) {
    |e.hashes| <= 1 &&
    (e.hashes == [] ==> e.quota.None? && e.aliases == {} && (SieveAddress(a) ==> e.sieve.None?))
  }

  ghost predicate Integrity(files: Files) {
    forall a :: a != "" ==> EntrySound(a, EntryOf(files, a))
  }

  /** No account address holds one of the separators of the other two files. */
  predicate Tidy(files: Files) {
    forall a | a in Accounts(files) :: ',' !in a && ':' !in a
  }

  lemma {:induction false} HashesCount(lines: seq<string>, a: string)
    ensures a != "" ==> (a in Addresses(lines) <==> HashesOf(lines, a) != [])
    ensures a != "" && a in Addresses(lines) && |HashesOf(lines, a)| <= 1 ==>
      exists i | 0 <= i < |Addresses(lines)| :: Addresses(lines)[i] == a && forall j | 0 <= j < |Addresses(lines)| && j != i :: Addresses(lines)[j] != a
  {
    hide Owner, SplitAccount;
    if lines != [] {
      var n := |lines| - 1;
      HashesCount(lines[..n], a);
      var before, all := Addresses(lines[..n]), Addresses(lines);
      if a != "" && a in all && |HashesOf(lines, a)| <= 1 {
        if Owner(lines[n]) == a {
          assert all[|before|] == a;
        } else {
          var i :| 0 <= i < |before| && before[i] == a && forall j | 0 <= j < |before| && j != i :: before[j] != a;
          assert all[i] == a;
        }
      }
    }
  }

  lemma {:induction false} AccountsNotEmpty(lines: seq<string>)
    ensures "" !in Addresses(lines)
  {
    if lines != [] { AccountsNotEmpty(lines[..|lines| - 1]); }
  }

  /** What integrity says of the files themselves. */
  lemma IntegrityMeans(files: Files)
    requires Integrity(files)
    ensures NoRepeat(Accounts(files))
    ensures forall a | a in QuotaMap(files) :: a in Accounts(files)
    ensures forall p | p in Pairs(AliasLines(files)) :: p.1 in Accounts(files)
    ensures forall a | SieveAddress(a) && SieveFile(a) in files :: a in Accounts(files)
  {
    hide HashesOf, Addresses, Quotas, Pairs, SieveAddress;
    var lines := AccountLines(files);
    var accounts := Addresses(lines);
    AccountsNotEmpty(lines);
    forall i, j | 0 <= i < j < |accounts| ensures accounts[i] != accounts[j] {
      HashesCount(lines, accounts[i]);
      assert accounts[i] in accounts;
      assert EntrySound(accounts[i], EntryOf(files, accounts[i]));
    }
    QuotasOk(ReadLines(Read(files, QUOTAS)));
    forall a | a in QuotaMap(files) ensures a in accounts {
      HashesCount(lines, a);
      assert EntrySound(a, EntryOf(files, a));
    }
    PairsAreOk(AliasLines(files));
    forall p | p in Pairs(AliasLines(files)) ensures p.1 in accounts {
      HashesCount(lines, p.1);
      assert EntrySound(p.1, EntryOf(files, p.1));
      assert p.0 in AliasesOf(AliasLines(files), p.1);
    }
    forall a | SieveAddress(a) && SieveFile(a) in files ensures a in accounts {
      HashesCount(lines, a);
      assert a != "" by { assert SieveAddress(a); SieveNotEmpty(a); }
      assert EntrySound(a, EntryOf(files, a));
    }
  }

  lemma SieveNotEmpty(a: string)
    ensures SieveAddress(a) ==> a != ""
  {}

  /** The files are independent of each other. */
  lemma SievePaths(a: string, b: string)
    ensures SieveFile(a) != ACCOUNTS && SieveFile(a) != VIRTUAL && SieveFile(a) != QUOTAS
    ensures SieveFile(a) == SieveFile(b) ==> a == b
  {
    var s := SieveFile(a);
    assert s[|s| - 1] == 'e' && ACCOUNTS[|ACCOUNTS| - 1] == 'f' && VIRTUAL[|VIRTUAL| - 1] == 'f' && QUOTAS[|QUOTAS| - 1] == 'f';
    assert s[..|s| - 14] == a && SieveFile(b)[..|SieveFile(b)| - 14] == b;
  }

  // ---- Effect of each rewrite on the views ---------------------------------------------------

  lemma QuotaMapIsOk(files: Files)
    ensures QuotaMapOk(QuotaMap(files))
  {
    QuotasOk(ReadLines(Read(files, QUOTAS)));
  }

  lemma SetQuotaLineView(files: Files, a: string, quota: string)
    requires QuotaKeyOk(a) && QuotaOk(quota)
    ensures QuotaMap(SetQuotaLine(files, a, quota)) == QuotaMap(files)[a := quota]
  {
    hide QuotaKeyOk, QuotaOk, PrintQuotas, Quotas, ReadLines;
    QuotaMapIsOk(files);
    QuotasRoundTrip(QuotaMap(files)[a := quota]);
  }

  lemma RemoveQuotaLineView(files: Files, a: string)
    ensures QuotaMap(RemoveQuotaLine(files, a)) == QuotaMap(files) - {a}
  {
    hide QuotaKeyOk, QuotaOk, PrintQuotas, Quotas, ReadLines;
    QuotaMapIsOk(files);
    QuotasRoundTrip(QuotaMap(files) - {a});
  }

  lemma WriteAccountsView(files: Files, lines: seq<string>)
    requires forall l | l in lines :: LineOk(l)
    ensures AccountLines(WriteLines(files, ACCOUNTS, lines)) == lines
  {
    ReadUnlines(lines);
  }

  lemma WriteAliasesView(files: Files, lines: seq<string>)
    requires forall l | l in lines :: LineOk(l)
    ensures AliasLines(WriteLines(files, VIRTUAL, lines)) == lines
  {
    ReadUnlines(lines);
  }

  lemma AliasesAfterStrike(lines: seq<string>, source: Option<string>, target: string, b: string)
    requires forall l | l in lines :: LineOk(l)
    ensures forall l | l in StrikeAll(lines, source, target) :: LineOk(l)
    ensures AliasesOf(StrikeAll(lines, source, target), b)
         == if b != target then AliasesOf(lines, b) else if source.Some? then AliasesOf(lines, b) - {source.value} else {}
  {
    hide Pairs, StrikeAll, LineOk;
    StrikeAllPairs(lines, source, target);
  }

  lemma NoHitNoAliases(lines: seq<string>, target: string)
    requires forall l | l in lines :: LineOk(l)
    requires !AnyHit(lines, None, target)
    ensures AliasesOf(lines, target) == {}
  {
    hide Pairs, LineOk, Hit;
    forall p | p in Pairs(lines) && p.1 == target ensures false {
      HitIffPair(lines, p.0, target);
      var l :| l in lines && Hit(l, Some(p.0), target);
      HitAny(l, p.0, target);
    }
  }

  lemma HitAny(line: string, source: string, target: string)
    requires LineOk(line) && Hit(line, Some(source), target)
    ensures Hit(line, None, target)
  {}

  lemma RemoveTargetView(files: Files, target: string, b: string)
    ensures AliasesOf(AliasLines(RemoveTarget(files, target)), b) == if b == target then {} else AliasesOf(AliasLines(files), b)
  {
    hide AnyHit, AliasesOf, StrikeAll, ReadLines, Unlines;
    var lines := AliasLines(files);
    if AnyHit(lines, None, target) {
      AliasesAfterStrike(lines, None, target, b);
      WriteAliasesView(files, StrikeAll(lines, None, target));
    } else {
      NoHitNoAliases(lines, target);
    }
  }

  // ---- Operations as updates of single entries --------------------------------------------------

  /** A validated e-mail address: no white space, comma or colon. It may hold a `|`. */
  predicate EmailOk(email: string) {
    var a := Normalise(email);
    NoSpace(a) && ',' !in a && ':' !in a
  }

  predicate QuotaRequestOk(quota: Option<string>) { GivesQuota(quota) ==> QuotaOk(quota.value) }

  ghost predicate Sound(files: Files) { Integrity(files) && Tidy(files) }

  /** The address an account line written for `address` is read back under. */
  function ReadBackAs(address: string): string {
    if '|' in address then Normalise(address[..IndexOf(address, '|')]) else address
  }

  lemma CreateEntries(files: Files, email: string, hash: string, quota: Option<string>, b: string)
    requires EmailOk(email) && HashOk(hash) && QuotaRequestOk(quota)
    requires Create(files, email, hash, quota).1.Ok?
    ensures var a := Normalise(email);
      var before, after := EntryOf(files, b), EntryOf(Create(files, email, hash, quota).0, b);
      after.aliases == before.aliases && after.sieve == before.sieve &&
      after.quota == (if b == a && GivesQuota(quota) then quota else before.quota) &&
      (if b != ReadBackAs(a) then after.hashes == before.hashes
       else |after.hashes| == |before.hashes| + 1 && ('|' !in a ==> after.hashes == before.hashes + [hash]))
  {
    hide Quotas, AliasesOf, ReadLines, Unlines, PrintQuotas, HashesOf, AccountLine, Normalise, ReadBackAs, HashOk, QuotaOk;
    var a := Normalise(email);
    var lines := AccountLines(files);
    AddressAppended(lines, email, hash, b);
    var written := WriteLines(files, ACCOUNTS, lines + [AccountLine(a, hash)]);
    WriteAccountsView(files, lines + [AccountLine(a, hash)]);
    SievePaths(b, b);
    if GivesQuota(quota) {
      SetQuotaLineView(written, a, quota.value);
    }
  }

  /** The hashes of every address once the line of a new account is appended. */
  lemma AddressAppended(lines: seq<string>, email: string, hash: string, b: string)
    requires EmailOk(email) && HashOk(hash) && '@' in Normalise(email)
    ensures var a := Normalise(email);
      QuotaKeyOk(a) && LineOk(AccountLine(a, hash)) &&
      var after := HashesOf(lines + [AccountLine(a, hash)], b);
      if b != ReadBackAs(a) then after == HashesOf(lines, b)
      else |after| == |HashesOf(lines, b)| + 1 && ('|' !in a ==> after == HashesOf(lines, b) + [hash])
  {
    hide Normalise, SplitKey, AccountLine;
    var a := Normalise(email);
    NormaliseFacts(email);
    NoSpaceTrimmed(a);
    assert a != "";
    if '|' in a { AccountLineCut(a, hash); } else { AccountLineRoundTrip(a, hash); }
    assert (lines + [AccountLine(a, hash)])[..|lines|] == lines;
  }

  lemma DeleteEntries(files: Files, email: string, b: string)
    requires Delete(files, email).1.Ok?
    ensures var a := Normalise(email);
      var before, after := EntryOf(files, b), EntryOf(Delete(files, email).0, b);
      after == if b == a then Entry([], None, {}, if SieveAddress(a) then None else before.sieve) else before
  {
    hide Quotas, AliasesOf, ReadLines, Unlines, PrintQuotas, Normalise, SieveAddress, HasOwner, WithoutOwner, HashesOf, StrikeAll, AnyHit;
    var a := Normalise(email);
    var lines := AccountLines(files);
    var f1 := WriteLines(files, ACCOUNTS, WithoutOwner(lines, a));
    assert forall l | l in WithoutOwner(lines, a) :: LineOk(l);
    WriteAccountsView(files, WithoutOwner(lines, a));
    WithoutOwnerHashes(lines, a, b);
    RemoveQuotaLineView(f1, a);
    RemoveTargetView(RemoveQuotaLine(f1, a), a, b);
    SievePaths(a, b);
    SievePaths(b, a);
  }

  lemma SetPasswordEntries(files: Files, email: string, hash: string, b: string)
    requires HashOk(hash) && SetPassword(files, email, hash).1.Ok?
    ensures var a := Normalise(email);
      var before, after := EntryOf(files, b), EntryOf(SetPassword(files, email, hash).0, b);
      after == if b == a then before.(hashes := seq(|before.hashes|, _ => hash)) else before
  {
    hide Quotas, AliasesOf, ReadLines, Unlines, Normalise, HashesOf, AccountLine, SplitKey;
    var a := Normalise(email);
    var lines := AccountLines(files);
    var owned :| owned in lines && Owner(owned) == a;
    OwnerOk(owned);
    AccountLineRoundTrip(a, hash);
    assert forall l | l in WithHash(lines, a, hash) :: LineOk(l);
    WriteAccountsView(files, WithHash(lines, a, hash));
    WithHashFacts(lines, a, hash, b);
    SievePaths(b, b);
  }

  lemma SetQuotaEntries(files: Files, email: string, quota: Option<string>, b: string)
    requires Tidy(files) && QuotaRequestOk(quota) && SetQuota(files, email, quota).1.Ok?
    ensures var a := Normalise(email);
      var before, after := EntryOf(files, b), EntryOf(SetQuota(files, email, quota).0, b);
      after == if b == a then before.(quota := if GivesQuota(quota) then quota else None) else before
  {
    hide Quotas, AliasesOf, ReadLines, Unlines, PrintQuotas, Normalise, HashesOf;
    var a := Normalise(email);
    AccountOk(files, a);
    SievePaths(b, b);
    if GivesQuota(quota) {
      SetQuotaLineView(files, a, quota.value);
    } else {
      RemoveQuotaLineView(files, a);
    }
  }

  lemma AccountOk(files: Files, a: string)
    requires a in Accounts(files)
    ensures a != "" && AddressOk(a)
  {
    var lines := AccountLines(files);
    AddressesAre(lines);
    var owned :| owned in lines && Owner(owned) == a;
    OwnerOk(owned);
  }

  lemma AddAliasEntries(files: Files, email: string, alias: string, b: string)
    requires Tidy(files) && NoSpace(Normalise(alias)) && AddAlias(files, email, alias).1.Ok?
    ensures var a := Normalise(email);
      var before, after := EntryOf(files, b), EntryOf(AddAlias(files, email, alias).0, b);
      after == if b == a then before.(aliases := before.aliases + {Normalise(alias)}) else before
  {
    hide Quotas, Pairs, ReadLines, Unlines, Normalise, HashesOf, AnyHit, LineOk, NoSpace, AliasesOf;
    var a, source := Normalise(email), Normalise(alias);
    AccountOk(files, a);
    NormaliseFacts(alias);
    AppendAddsPair(AliasLines(files), source, a);
    AliasesAfterAdd(AliasLines(files), AliasLines(AddAlias(files, email, alias).0), source, a, b);
    SievePaths(b, b);
  }

  lemma AliasesAfterAdd(lines: seq<string>, lines1: seq<string>, source: string, target: string, b: string)
    requires (forall l | l in lines :: LineOk(l)) && (forall l | l in lines1 :: LineOk(l))
    requires Pairs(lines1) == Pairs(lines) + {(source, target)}
    ensures AliasesOf(lines1, b) == if b == target then AliasesOf(lines, b) + {source} else AliasesOf(lines, b)
  {
    hide Pairs, LineOk;
    assert (source, target) in Pairs(lines1);
  }

  lemma DeleteAliasEntries(files: Files, email: string, alias: string, b: string)
    requires DeleteAlias(files, email, alias).1.Ok?
    ensures var a := Normalise(email);
      var before, after := EntryOf(files, b), EntryOf(DeleteAlias(files, email, alias).0, b);
      after == if b == a then before.(aliases := before.aliases - {Normalise(alias)}) else before
  {
    hide Quotas, AliasesOf, StrikeAll, ReadLines, Unlines, Normalise, HashesOf, AnyHit, LineOk;
    var a, source := Normalise(email), Normalise(alias);
    var lines := AliasLines(files);
    AliasesAfterStrike(lines, Some(source), a, b);
    WriteAliasesView(files, StrikeAll(lines, Some(source), a));
    SievePaths(b, b);
  }

  // ---- Runs --------------------------------------------------------------------------------------

  datatype Op =
    | CreateOp(email: string, hash: string, quota: Option<string>)
    | DeleteOp(email: string)
    | SetPasswordOp(email: string, hash: string)
    | SetQuotaOp(email: string, quota: Option<string>)
    | AddAliasOp(email: string, alias: string)
    | DeleteAliasOp(email: string, alias: string)
    | SetSieveOp(email: string, content: string)
    | DeleteSieveOp(email: string)

  /** What the request schemas guarantee. */
  predicate OpOk(op: Op) {
    match op
    case CreateOp(email, hash, quota) => EmailOk(email) && HashOk(hash) && QuotaRequestOk(quota)
    case SetPasswordOp(_, hash) => HashOk(hash)
    case SetQuotaOp(_, quota) => QuotaRequestOk(quota)
    case AddAliasOp(_, alias) => NoSpace(Normalise(alias))
    case _ => true
  }

  /** No new address holds a `|`. */
  predicate Plain(op: Op) { op.CreateOp? ==> '|' !in Normalise(op.email) }

  function Step(files: Files, op: Op): (Files, bool) {
    match op
    case CreateOp(email, hash, quota) => var (f, r) := Create(files, email, hash, quota); (f, r.Ok?)
    case DeleteOp(email) => var (f, r) := Delete(files, email); (f, r.Ok?)
    case SetPasswordOp(email, hash) => var (f, r) := SetPassword(files, email, hash); (f, r.Ok?)
    case SetQuotaOp(email, quota) => var (f, r) := SetQuota(files, email, quota); (f, r.Ok?)
    case AddAliasOp(email, alias) => var (f, r) := AddAlias(files, email, alias); (f, r.Ok?)
    case DeleteAliasOp(email, alias) => var (f, r) := DeleteAlias(files, email, alias); (f, r.Ok?)
    case SetSieveOp(email, content) => var (f, r) := SetSieve(files, email, content); (f, r.Ok?)
    case DeleteSieveOp(email) => var (f, r) := DeleteSieve(files, email); (f, r.Ok?)
  }

  /** The abstract operation: the new entry of the address the operation is about. */
  function NewEntry(e: Entry, op: Op): Entry {
    match op
    case CreateOp(_, hash, quota) => e.(hashes := e.hashes + [hash], quota := if GivesQuota(quota) then quota else e.quota)
    case DeleteOp(email) => Entry([], None, {}, if SieveAddress(Normalise(email)) then None else e.sieve)
    case SetPasswordOp(_, hash) => e.(hashes := seq(|e.hashes|, _ => hash))
    case SetQuotaOp(_, quota) => e.(quota := if GivesQuota(quota) then quota else None)
    case AddAliasOp(_, alias) => e.(aliases := e.aliases + {Normalise(alias)})
    case DeleteAliasOp(_, alias) => e.(aliases := e.aliases - {Normalise(alias)})
    case SetSieveOp(_, content) => e.(sieve := if Strip(content) == "" then None else Some(Strip(content) + "\n"))
    case DeleteSieveOp(_) => e.(sieve := None)
  }

  lemma PlainStepEntry(files: Files, op: Op, b: string)
    requires Tidy(files) && OpOk(op) && Plain(op)
    ensures var (files1, ok) := Step(files, op);
      EntryOf(files1, b) == if ok && b == Normalise(op.email) then NewEntry(EntryOf(files, b), op) else EntryOf(files, b)
  {
    hide EntryOf, Create, Delete, SetPassword, SetQuota, AddAlias, DeleteAlias, SetSieve, DeleteSieve, Normalise, SieveAddress, NoSpace;
    if !Step(files, op).1 {
      RefusedStep(files, op);
    } else {
      match op
      case CreateOp(email, hash, quota) => CreateEntries(files, email, hash, quota, b);
      case DeleteOp(email) => DeleteEntries(files, email, b);
      case SetPasswordOp(email, hash) => SetPasswordEntries(files, email, hash, b);
      case SetQuotaOp(email, quota) => SetQuotaEntries(files, email, quota, b);
      case AddAliasOp(email, alias) => AddAliasEntries(files, email, alias, b);
      case DeleteAliasOp(email, alias) => DeleteAliasEntries(files, email, alias, b);
      case SetSieveOp(email, content) => SieveEntries(files, op, b);
      case DeleteSieveOp(email) => SieveEntries(files, op, b);
    }
  }

  /** The operation updates the entry of its address and leaves all others alone; a refused one changes none. */
  ghost predicate OneEntryUpdated(files: Files, op: Op) {
    var (files1, ok) := Step(files, op);
    forall b :: EntryOf(files1, b) == if ok && b == Normalise(op.email) then NewEntry(EntryOf(files, b), op) else EntryOf(files, b)
  }

  /** MAIN: every operation on the text files is the update of one entry of the map from address to entry, the
      entries of all other addresses untouched, unless it is an accepted creation whose address holds a `|`. */
  lemma StepRefines(files: Files, op: Op)
    requires Tidy(files) && OpOk(op)
    ensures OneEntryUpdated(files, op) <==> !Step(files, op).1 || Plain(op)
  {
    hide EntryOf, NewEntry, Normalise, OpOk, Tidy, Step, Plain;
    var (files1, ok) := Step(files, op);
    if Plain(op) {
      forall b ensures EntryOf(files1, b) == if ok && b == Normalise(op.email) then NewEntry(EntryOf(files, b), op) else EntryOf(files, b) {
        PlainStepEntry(files, op, b);
      }
    } else if ok {
      BarCreatesAnother(files, op);
      assert EntryOf(files1, ReadBackAs(Normalise(op.email))) != EntryOf(files, ReadBackAs(Normalise(op.email)));
    } else {
      RefusedStep(files, op);
    }
  }

  /** An accepted creation with a `|` gives a hash to another address. */
  lemma BarCreatesAnother(files: Files, op: Op)
    requires OpOk(op) && !Plain(op) && Step(files, op).1
    ensures var b := ReadBackAs(Normalise(op.email));
      b != Normalise(op.email) && |EntryOf(Step(files, op).0, b).hashes| == |EntryOf(files, b).hashes| + 1
  {
    hide EntryOf, Create, Normalise, NoSpace, ReadBackAs;
    var b := ReadBackAs(Normalise(op.email));
    ReadBackDiffers(Normalise(op.email));
    CreateEntries(files, op.email, op.hash, op.quota, b);
  }

  lemma RefusedStep(files: Files, op: Op)
    requires !Step(files, op).1
    ensures Step(files, op).0 == files
  {
    hide Normalise, SieveAddress, AnyHit, HasOwner, Accounts, AccountLines, AliasLines;
  }

  lemma SieveEntries(files: Files, op: Op, b: string)
    requires (op.SetSieveOp? || op.DeleteSieveOp?) && Step(files, op).1
    ensures EntryOf(Step(files, op).0, b) == if b == Normalise(op.email) then NewEntry(EntryOf(files, b), op) else EntryOf(files, b)
  {
    hide Normalise, SieveAddress, Accounts, HashesOf, Quotas, Pairs, ReadLines;
    SievePaths(b, Normalise(op.email));
    SievePaths(Normalise(op.email), b);
  }

  function Run(files: Files, ops: seq<Op>): Files {
    if ops == [] then files else Step(Run(files, ops[..|ops| - 1]), ops[|ops| - 1]).0
  }

  /** An accepted operation is about an account, or creates one. */
  lemma AcceptedTarget(files: Files, op: Op)
    requires Step(files, op).1
    ensures var a := Normalise(op.email);
      if op.CreateOp? then '@' in a && HashesOf(AccountLines(files), a) == []
      else a != "" ==> HashesOf(AccountLines(files), a) != []
  {
    hide Normalise, SieveAddress, AnyHit;
    var a := Normalise(op.email);
    OwnersAreHashes(AccountLines(files), a);
    HashesCount(AccountLines(files), a);
  }

  lemma {:induction false} OwnersAreHashes(lines: seq<string>, a: string)
    ensures HasOwner(lines, a) <==> HashesOf(lines, a) != []
  {
    hide Owner, SplitAccount;
    if lines != [] {
      var n := |lines| - 1;
      OwnersAreHashes(lines[..n], a);
      assert forall l :: l in lines <==> l in lines[..n] || l == lines[n];
      assert lines[n] in lines;
    }
  }

  lemma StepTidy(files: Files, op: Op)
    requires Tidy(files) && OpOk(op) && Plain(op)
    ensures Tidy(Step(files, op).0)
  {
    hide Step, EntryOf, Addresses, Create, Normalise;
    var files1 := Step(files, op).0;
    AccountsNotEmpty(AccountLines(files1));
    forall a | a in Accounts(files1) ensures ',' !in a && ':' !in a {
      PlainStepEntry(files, op, a);
      HashesCount(AccountLines(files1), a);
      HashesCount(AccountLines(files), a);
      assert EntryOf(files1, a).hashes == HashesOf(AccountLines(files1), a) by { EntryHashes(files1, a); }
      assert EntryOf(files, a).hashes == HashesOf(AccountLines(files), a) by { EntryHashes(files, a); }
    }
  }

  lemma EntryHashes(files: Files, a: string)
    ensures EntryOf(files, a).hashes == HashesOf(AccountLines(files), a)
  {}

  lemma StepKeepsIntegrity(files: Files, op: Op)
    requires Sound(files) && OpOk(op) && Plain(op)
    ensures Sound(Step(files, op).0)
  {
    hide Step, EntryOf, Normalise, OpOk, Plain, Tidy, SieveAddress;
    var (files1, ok) := Step(files, op);
    StepTidy(files, op);
    forall a | a != "" ensures EntrySound(a, EntryOf(files1, a)) {
      PlainStepEntry(files, op, a);
      assert EntrySound(a, EntryOf(files, a));
      if ok && a == Normalise(op.email) {
        AcceptedTarget(files, op);
        EntryHashes(files, a);
      }
    }
  }

  lemma EmptyIsSound()
    ensures Sound(map[])
  {
    var files: Files := map[];
    assert ReadLines("") == [];
    forall a | a != "" ensures EntrySound(a, EntryOf(files, a)) {
      assert HashesOf([], a) == [] && AliasesOf([], a) == {};
    }
  }

  /** MAIN: exactly when creating a mailbox keeps the store sound. A validated e-mail address may hold
      a `|`, which ends the address on the line that is written: then the new line belongs to the part
      before the `|`, and the store stays consistent only if no quota was asked for and that part is
      not yet an account. */
  lemma CreateKeepsIntegrityIff(files: Files, email: string, hash: string, quota: Option<string>)
    requires Sound(files) && EmailOk(email) && HashOk(hash) && QuotaRequestOk(quota)
    requires Create(files, email, hash, quota).1.Ok?
    ensures var a := Normalise(email);
      Integrity(Create(files, email, hash, quota).0) <==>
      '|' !in a || (!GivesQuota(quota) && (ReadBackAs(a) == "" || ReadBackAs(a) !in Accounts(files)))
  {
    hide EntryOf, Create, Normalise, Tidy, SieveAddress, NoSpace, ReadBackAs, Addresses, HashesOf;
    var a := Normalise(email);
    var files1 := Create(files, email, hash, quota).0;
    var lines := AccountLines(files);
    if '|' !in a {
      StepKeepsIntegrity(files, CreateOp(email, hash, quota));
    } else {
      var p := ReadBackAs(a);
      HashesCount(lines, p);
      EntryHashes(files, p);
      EntryHashes(files, a);
      NoBarOwner(lines, a);
      assert a != "" && p != a by { ReadBackDiffers(a); }
      CreateEntries(files, email, hash, quota, p);
      CreateEntries(files, email, hash, quota, a);
      if !GivesQuota(quota) && (p == "" || p !in Accounts(files)) {
        forall b | b != "" ensures EntrySound(b, EntryOf(files1, b)) {
          CreateEntries(files, email, hash, quota, b);
          assert EntrySound(b, EntryOf(files, b));
        }
      } else if GivesQuota(quota) {
        assert !EntrySound(a, EntryOf(files1, a));
      } else {
        assert !EntrySound(p, EntryOf(files1, p));
      }
    }
  }

  lemma ReadBackDiffers(a: string)
    requires '|' in a
    ensures ReadBackAs(a) != a
  {
    var i := IndexOf(a, '|');
    NotInIndexOf(a, '|');
    assert '|' !in a[..i];
    NormaliseKeeps(a[..i], '|');
  }

  lemma {:induction false} NoBarOwner(lines: seq<string>, a: string)
    requires '|' in a && forall l | l in lines :: LineOk(l)
    ensures HashesOf(lines, a) == []
  {
    hide Owner, SplitAccount;
    if lines != [] {
      var n := |lines| - 1;
      NoBarOwner(lines[..n], a);
      assert lines[n] in lines;
      OwnerOk(lines[n]);
    }
  }

  // ---- Runs with any accepted address ---------------------------------------------------------------------

  /** What keeps an accepted creation consistent: no `|` in its address, or no quota and nobody at the part before
      the `|`. */
  predicate Careful(files: Files, op: Op) {
    op.CreateOp? && Step(files, op).1 ==>
      var a := Normalise(op.email);
      '|' !in a || (!GivesQuota(op.quota) && (ReadBackAs(a) == "" || ReadBackAs(a) !in Accounts(files)))
  }

  /** A creation adds at most the address its line is read back under, which holds no separator. */
  lemma CreateTidy(files: Files, email: string, hash: string, quota: Option<string>)
    requires Tidy(files) && EmailOk(email) && HashOk(hash) && QuotaRequestOk(quota) && Create(files, email, hash, quota).1.Ok?
    ensures Tidy(Create(files, email, hash, quota).0)
  {
    hide EntryOf, Create, Normalise, NoSpace, ReadBackAs, Addresses, HashesOf, HashOk, QuotaRequestOk;
    var files1 := Create(files, email, hash, quota).0;
    AccountsNotEmpty(AccountLines(files1));
    forall b | b in Accounts(files1) ensures ',' !in b && ':' !in b {
      CreateEntries(files, email, hash, quota, b);
      HashesCount(AccountLines(files1), b);
      HashesCount(AccountLines(files), b);
      EntryHashes(files1, b);
      EntryHashes(files, b);
      ReadBackClean(Normalise(email));
    }
  }

  lemma ReadBackClean(a: string)
    requires ',' !in a && ':' !in a
    ensures ',' !in ReadBackAs(a) && ':' !in ReadBackAs(a)
  {
    hide Normalise;
    var head := a[..IndexOf(a, '|')];
    assert forall c | c in head :: c in a;
    NormaliseKeeps(head, ',');
    NormaliseKeeps(head, ':');
  }

  /** MAIN: exactly when an operation keeps a sound directory sound. */
  lemma StepSoundIff(files: Files, op: Op)
    requires Sound(files) && OpOk(op)
    ensures Sound(Step(files, op).0) <==> Careful(files, op)
  {
    hide Integrity, Tidy, Normalise, EmailOk, HashOk, QuotaRequestOk, Create, ReadBackAs, Accounts, GivesQuota;
    if Plain(op) {
      StepKeepsIntegrity(files, op);
    } else if Step(files, op).1 {
      CreateKeepsIntegrityIff(files, op.email, op.hash, op.quota);
      CreateTidy(files, op.email, op.hash, op.quota);
    } else {
      RefusedStep(files, op);
    }
  }

  /** The directory was sound after every operation of the run. */
  ghost predicate SoundThroughout(files: Files, ops: seq<Op>) {
    Sound(Run(files, ops)) && (ops != [] ==> SoundThroughout(files, ops[..|ops| - 1]))
  }

  /** Every operation of the run was careful when it came. */
  predicate CarefulThroughout(files: Files, ops: seq<Op>) {
    ops != [] ==> CarefulThroughout(files, ops[..|ops| - 1]) && Careful(Run(files, ops[..|ops| - 1]), ops[|ops| - 1])
  }

  /** MAIN: over every run of validated operations account addresses stay distinct and every quota, alias target
      and personal Sieve filter attached to an existing account, at every point of it, if and only if every
      operation was careful when it came. */
  lemma {:induction false} RunSoundIff(files: Files, ops: seq<Op>)
    requires Sound(files) && forall op | op in ops :: OpOk(op)
    ensures SoundThroughout(files, ops) <==> CarefulThroughout(files, ops)
  {
    hide Sound, OpOk, Step, Careful;
    if ops != [] {
      var n := |ops| - 1;
      RunSoundIff(files, ops[..n]);
      assert ops[n] in ops;
      if Sound(Run(files, ops[..n])) { StepSoundIff(Run(files, ops[..n]), ops[n]); }
    }
  }

  /** In particular over every run whose new addresses hold no `|`. */
  lemma {:induction false} RunKeepsIntegrity(files: Files, ops: seq<Op>)
    requires Sound(files) && forall op | op in ops :: OpOk(op) && Plain(op)
    ensures Sound(Run(files, ops))
  {
    hide Sound, OpOk, Plain, Step;
    if ops != [] {
      var n := |ops| - 1;
      RunKeepsIntegrity(files, ops[..n]);
      assert ops[n] in ops;
      StepKeepsIntegrity(Run(files, ops[..n]), ops[n]);
    }
  }

  /** For instance, on the empty directory creating this accepted address gives the address `a` a hash. */
  lemma BarCreatesA(hash: string, quota: Option<string>)
    requires HashOk(hash) && QuotaRequestOk(quota)
    ensures var op := CreateOp("a|b@c.d", hash, quota);
      Step(map[], op).1 && EntryOf(map[], "a").hashes == [] && |EntryOf(Step(map[], op).0, "a").hashes| == 1 && !OneEntryUpdated(map[], op)
  {
    hide Normalise, Create, EmailOk, HashOk, QuotaRequestOk, EntryOf, ReadBackAs, OneEntryUpdated, Tidy;
    var op := CreateOp("a|b@c.d", hash, quota);
    BarAddress();
    assert "a|b@c.d"[1] == '|';
    CreateAccepts(hash, quota);
    assert ReadBackAs("a|b@c.d") == "a" by { ReadBackA(); }
    BarCreatesAnother(map[], op);
    EntryHashes(map[], "a");
    assert ReadLines("") == [];
    assert Tidy(map[]) by { EmptyIsSound(); }
    StepRefines(map[], op);
  }

  lemma ReadBackA()
    ensures ReadBackAs("a|b@c.d") == "a"
  {
    hide Strip;
    assert "a|b@c.d" == "a" + ['|'] + "b@c.d";
    PartitionAt("a", '|', "b@c.d");
    StripTrimmed("a");
    assert "a|b@c.d"[1] == '|';
    assert Lower("a") == "a";
  }

  /** ... and with a quota it breaks the integrity. */
  lemma BarBreaksIntegrity(hash: string)
    requires HashOk(hash)
    ensures var (files, r) := Create(map[], "a|b@c.d", hash, Some("1G"));
      r == Ok(Mailbox("a|b@c.d", Some("1G"))) && Sound(map[]) && !Integrity(files)
  {
    hide Integrity, Sound, Create, EmailOk, QuotaRequestOk;
    EmptyIsSound();
    BarAddress();
    CreateAccepts(hash, Some("1G"));
    CreateKeepsIntegrityIff(map[], "a|b@c.d", hash, Some("1G"));
    assert "a|b@c.d"[1] == '|';
  }

  lemma BarAddress()
    ensures Normalise("a|b@c.d") == "a|b@c.d" && EmailOk("a|b@c.d") && QuotaRequestOk(Some("1G"))
  {
    hide Strip;
    StripTrimmed("a|b@c.d");
    assert Lower("a|b@c.d") == "a|b@c.d";
  }

  lemma CreateAccepts(hash: string, quota: Option<string>)
    ensures Create(map[], "a|b@c.d", hash, quota).1 == Ok(Mailbox("a|b@c.d", quota))
  {
    hide Normalise, WriteLines, SetQuotaLine, Owner;
    BarAddress();
    assert "a|b@c.d"[3] == '@';
    assert ReadLines("") == [];
  }
}
