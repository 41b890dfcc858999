/** When each mailbox operation is accepted or refused, with which answer, and what text it writes. */
module MailboxAnswers {
  import opened Text
  import opened Container
  import opened Aliases
  import opened Provisioning
  import opened Mailboxes
  import opened MailboxStore

  /** Some line of the accounts file is about the address: its part before the first bar, normalised. */
  ghost predicate HasLine(files: Files, a: string) {
    exists l :: l in ReadLines(Read(files, "postfix-accounts.cf")) && Normalise(l[..IndexOf(l, '|')]) == a
  }

  ghost predicate IsAccount(files: Files, a: string) { a != "" && HasLine(files, a) }

  /** Some line of the alias file forwards the source to the target. */
  ghost predicate Forwards(files: Files, source: string, target: string) {
    exists l :: l in ReadLines(Read(files, "postfix-virtual.cf")) && ParseAlias(l).0 == source && target in ParseAlias(l).1
  }

  lemma AccountIff(files: Files, a: string)
    ensures HasOwner(AccountLines(files), a) <==> HasLine(files, a)
    ensures a in Accounts(files) <==> IsAccount(files, a)
  {
    hide ReadLines, Normalise;
    AddressesAre(AccountLines(files));
    forall l ensures Owner(l) == Normalise(l[..IndexOf(l, '|')]) { OwnerIs(l); }
  }

  lemma OwnerIs(l: string)
    ensures Owner(l) == Normalise(l[..IndexOf(l, '|')])
  {}

  lemma ForwardsIff(files: Files, source: string, target: string)
    ensures AnyHit(AliasLines(files), Some(source), target) <==> Forwards(files, source, target)
  {
    hide ReadLines, ParseAlias;
  }

  // ---- Accounts ------------------------------------------------------------------------------------------

  /** MAIN: a mailbox is created if and only if its address has an at sign and no account line; one line is appended
      to the accounts file, and the quota file is touched only when a quota is given. */
  lemma CreateAnswers(files: Files, email: string, hash: string, quota: Option<string>)
    ensures var a := Normalise(email);
      var (after, r) := Create(files, email, hash, quota);
      r == (if '@' !in a then BadRequest else if HasLine(files, a) then Conflict else Ok(Mailbox(a, quota))) &&
      (!r.Ok? ==> after == files) &&
      (r.Ok? ==>
        Read(after, "postfix-accounts.cf") == Unlines(ReadLines(Read(files, "postfix-accounts.cf")) + [a + "|" + hash]) &&
        (forall p | p != "postfix-accounts.cf" && p != "dovecot-quotas.cf" :: (p in after <==> p in files) && Read(after, p) == Read(files, p)) &&
        (quota.None? || quota.value == "" ==> Read(after, "dovecot-quotas.cf") == Read(files, "dovecot-quotas.cf")))
  {
    hide ReadLines, Normalise, HasOwner, HasLine, Quotas, PrintQuotas, Unlines;
    AccountIff(files, Normalise(email));
  }

  /** MAIN: a mailbox is deleted, and a password replaced, if and only if the address has an account line; a quota is
      set or removed if and only if it is an account. */
  lemma AccountAnswers(files: Files, email: string, hash: string, quota: Option<string>)
    ensures var a := Normalise(email);
      Delete(files, email).1 == (if HasLine(files, a) then Ok(()) else NotFound) &&
      SetPassword(files, email, hash).1 == (if HasLine(files, a) then Ok(Mailbox(a, QuotaOf(files, a))) else NotFound) &&
      SetQuota(files, email, quota).1 == (if IsAccount(files, a) then Ok(Mailbox(a, QuotaOf(SetQuota(files, email, quota).0, a))) else NotFound)
  {
    hide ReadLines, Normalise, HasOwner, HasLine, QuotaMap, PrintQuotas, WithoutOwner, WithHash, RemoveTarget;
    AccountIff(files, Normalise(email));
  }

  /** MAIN: the answer to a quota change shows the quota that was asked for, none when it was cleared. */
  lemma QuotaAnswered(files: Files, email: string, quota: Option<string>)
    requires Tidy(files) && QuotaRequestOk(quota) && SetQuota(files, email, quota).1.Ok?
    ensures SetQuota(files, email, quota).1.value.quota == if quota.Some? && quota.value != "" then quota else None
  {
    hide SetQuota, Tidy, Normalise, QuotaOf;
    AccountAnswers(files, email, "", quota);
    SetQuotaEntries(files, email, quota, Normalise(email));
    var a := Normalise(email);
    assert EntryOf(SetQuota(files, email, quota).0, a).quota == QuotaOf(SetQuota(files, email, quota).0, a);
  }

  /** The quota file is written as one line per address, in order: the address, a colon, its quota. */
  lemma QuotaText(files: Files, address: string, quota: string)
    ensures var m := QuotaMap(files)[address := quota];
      var keys := Sorted(m.Keys);
      SetQuotaLine(files, address, quota) ==
        files["dovecot-quotas.cf" := Unlines(seq(|keys|, i requires 0 <= i < |keys| => assert keys[i] in keys; keys[i] + ":" + m[keys[i]]))]
  {
    hide QuotaMap, Unlines;
    var m := QuotaMap(files)[address := quota];
    QuotaLinesAre(Sorted(m.Keys), m);
  }

  lemma {:induction false} QuotaLinesAre(keys: seq<string>, quotas: map<string, string>)
    requires forall k | k in keys :: k in quotas
    ensures QuotaLines(keys, quotas) == seq(|keys|, i requires 0 <= i < |keys| => assert keys[i] in keys; keys[i] + ":" + quotas[keys[i]])
  {
    if keys != [] { QuotaLinesAre(keys[..|keys| - 1], quotas); }
  }

  // ---- Aliases ---------------------------------------------------------------------------------------------

  /** MAIN: an alias is added if and only if its target is an account, and it has an at sign, differs from the target, is
      no account itself and does not forward there yet; one line is appended to the alias file and no other file
      changes. */
  lemma AddAliasAnswers(files: Files, email: string, alias: string)
    ensures var target, source := Normalise(email), Normalise(alias);
      var (after, r) := AddAlias(files, email, alias);
      r == (if !IsAccount(files, target) then NotFound
            else if '@' !in source || source == target then BadRequest
            else if IsAccount(files, source) || Forwards(files, source, target) then Conflict
            else Ok(source)) &&
      after == (if r.Ok? then files["postfix-virtual.cf" := Unlines(ReadLines(Read(files, "postfix-virtual.cf")) + [source + " " + target])] else files)
  {
    hide ReadLines, Normalise, Accounts, IsAccount, Forwards, AnyHit, Unlines;
    AccountIff(files, Normalise(email));
    AccountIff(files, Normalise(alias));
    ForwardsIff(files, Normalise(alias), Normalise(email));
  }

  /** MAIN: an alias is deleted if and only if its target is an account it forwards to. */
  lemma DeleteAliasAnswers(files: Files, email: string, alias: string)
    ensures var target, source := Normalise(email), Normalise(alias);
      var (after, r) := DeleteAlias(files, email, alias);
      r == (if IsAccount(files, target) && Forwards(files, source, target) then Ok(()) else NotFound) &&
      (r.Ok? ==> !Forwards(after, source, target)) && (!r.Ok? ==> after == files) &&
      forall p | p != "postfix-virtual.cf" :: (p in after <==> p in files) && Read(after, p) == Read(files, p)
  {
    hide Normalise, Accounts, IsAccount, Forwards, AnyHit, Unlines, StrikeAll, LineOk;
    var target, source := Normalise(email), Normalise(alias);
    AccountIff(files, target);
    ForwardsIff(files, source, target);
    if DeleteAlias(files, email, alias).1.Ok? {
      var after := DeleteAlias(files, email, alias).0;
      var lines := AliasLines(files);
      StrikeAllPairs(lines, Some(source), target);
      WriteAliasesView(files, StrikeAll(lines, Some(source), target));
      HitIffPair(AliasLines(after), source, target);
      ForwardsIff(after, source, target);
      HitExists(AliasLines(after), source, target);
    }
  }

  lemma HitExists(lines: seq<string>, source: string, target: string)
    requires forall l | l in lines :: LineOk(l)
    ensures AnyHit(lines, Some(source), target) <==> exists l :: l in lines && Hit(l, Some(source), target)
  {
    hide Hit;
  }

  // ---- Sieve filters ---------------------------------------------------------------------------------------

  predicate LetterOrDigit(c: char) { 'A' <= c <= 'Z' || 'a' <= c <= 'z' || '0' <= c <= '9' }

  predicate IsLocalPart(s: string) {
    s != "" && forall i | 0 <= i < |s| :: LetterOrDigit(s[i]) || s[i] == '.' || s[i] == '_' || s[i] == '%' || s[i] == '+' || s[i] == '-'
  }

  predicate IsDomainPart(s: string) { s != "" && forall i | 0 <= i < |s| :: LetterOrDigit(s[i]) || s[i] == '.' || s[i] == '-' }

  /** An address that a filter may be stored for: two parts of such characters around the at sign. */
  ghost predicate PlainAddress(a: string) { exists l, d :: IsLocalPart(l) && IsDomainPart(d) && a == l + ['@'] + d }

  lemma LocalPartIff(s: string)
    ensures IsLocalPart(s) <==> s != "" && forall i | 0 <= i < |s| :: LocalChar(s[i])
    ensures IsLocalPart(s) ==> '@' !in s
  {}

  lemma DomainPartIff(s: string)
    ensures IsDomainPart(s) <==> s != "" && forall i | 0 <= i < |s| :: DomainChar(s[i])
  {}

  lemma SieveAddressParts(l: string, d: string)
    requires '@' !in l
    ensures SieveAddress(l + ['@'] + d) <==> IsLocalPart(l) && IsDomainPart(d)
  {
    hide LocalChar, DomainChar, IsLocalPart, IsDomainPart;
    var a := l + ['@'] + d;
    PartitionAt(l, '@', d);
    LocalPartIff(l);
    DomainPartIff(d);
    assert forall j | 0 <= j < |l| :: a[j] == l[j];
    assert forall j | 0 <= j < |d| :: a[|l| + 1 + j] == d[j];
    assert forall j | |l| < j < |a| :: a[j] == d[j - |l| - 1];
  }

  lemma SieveAddressIff(a: string)
    ensures SieveAddress(a) <==> PlainAddress(a)
  {
    hide LocalChar, DomainChar, IsLocalPart, IsDomainPart;
    var i := IndexOf(a, '@');
    if i < |a| {
      assert a == a[..i] + ['@'] + a[i + 1..];
      SieveAddressParts(a[..i], a[i + 1..]);
    }
    if l, d :| IsLocalPart(l) && IsDomainPart(d) && a == l + ['@'] + d {
      LocalPartIff(l);
      SieveAddressParts(l, d);
    }
  }

  /** MAIN: a filter is stored, or removed when blank, if and only if the address is a plain one and an account; it is
      the stripped script and a newline in the file named after the address, and no other file changes. */
  lemma SieveAnswers(files: Files, email: string, content: string)
    ensures var a := Normalise(email);
      var file, script := a + ".dovecot.sieve", Strip(content);
      var r := if !PlainAddress(a) then BadRequest else if IsAccount(files, a) then Ok(()) else NotFound;
      SetSieve(files, email, content) == (if !r.Ok? then files else if script == "" then files - {file} else files[file := script + "\n"], r) &&
      DeleteSieve(files, email) == (if r.Ok? then files - {file} else files, r)
  {
    hide Normalise, Strip, Accounts, IsAccount, SieveAddress, PlainAddress;
    AccountIff(files, Normalise(email));
    SieveAddressIff(Normalise(email));
  }

  // ---- Steps of a run ----------------------------------------------------------------------------------------

  /** MAIN: exactly when each operation of a run is accepted. */
  lemma StepAcceptedIff(files: Files, op: Op)
    ensures var a := Normalise(op.email);
      Step(files, op).1 <==>
      match op
      case CreateOp(_, _, _) => '@' in a && !HasLine(files, a)
      case DeleteOp(_) => HasLine(files, a)
      case SetPasswordOp(_, _) => HasLine(files, a)
      case SetQuotaOp(_, _) => IsAccount(files, a)
      case AddAliasOp(_, alias) =>
        var source := Normalise(alias);
        IsAccount(files, a) && '@' in source && source != a && !IsAccount(files, source) && !Forwards(files, source, a)
      case DeleteAliasOp(_, alias) => IsAccount(files, a) && Forwards(files, Normalise(alias), a)
      case SetSieveOp(_, _) => PlainAddress(a) && IsAccount(files, a)
      case DeleteSieveOp(_) => PlainAddress(a) && IsAccount(files, a)
  {
    hide Normalise, HasLine, IsAccount, Forwards, PlainAddress, Create, Delete, SetPassword, SetQuota, AddAlias, DeleteAlias, SetSieve, DeleteSieve;
    match op {
      case CreateOp(email, hash, quota) => CreateAnswers(files, email, hash, quota);
      case DeleteOp(email) => AccountAnswers(files, email, "", None);
      case SetPasswordOp(email, hash) => AccountAnswers(files, email, hash, None);
      case SetQuotaOp(email, quota) => AccountAnswers(files, email, "", quota);
      case AddAliasOp(email, alias) => AddAliasAnswers(files, email, alias);
      case DeleteAliasOp(email, alias) => DeleteAliasAnswers(files, email, alias);
      case SetSieveOp(email, content) => SieveAnswers(files, email, content);
      case DeleteSieveOp(email) => SieveAnswers(files, email, "");
    }
  }
}
