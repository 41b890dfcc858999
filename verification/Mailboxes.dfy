/** The mailbox operations (mailbox_service.py): accounts, quotas, aliases and personal Sieve
    filters, each kept in a text file that is rewritten wholesale. The functions give the whole new
    directory; the methods of the service compute it. */
module Mailboxes {
  import opened Text
  import opened Container
  import opened Aliases
  import opened Provisioning

  const ACCOUNTS := "postfix-accounts.cf"
  const VIRTUAL := "postfix-virtual.cf"
  const QUOTAS := "dovecot-quotas.cf"

  datatype Mailbox = Mailbox(email: string, quota: Option<string>)

  function AccountLines(files: Files): (lines: seq<string>)
    ensures forall l | l in lines :: LineOk(l)
  {
    ReadLines(Read(files, ACCOUNTS))
  }

  function AliasLines(files: Files): (lines: seq<string>)
    ensures forall l | l in lines :: LineOk(l)
  {
    ReadLines(Read(files, VIRTUAL))
  }

  function QuotaMap(files: Files): map<string, string> { Quotas(ReadLines(Read(files, QUOTAS))) }

  function Accounts(files: Files): seq<string> { Addresses(AccountLines(files)) }

  function QuotaOf(files: Files, address: string): Option<string> {
    if address in QuotaMap(files) then Some(QuotaMap(files)[address]) else None
  }

  // ---- Personal Sieve filters ----------------------------------------------------------------

  predicate LocalChar(c: char) {
    'A' <= c <= 'Z' || 'a' <= c <= 'z' || '0' <= c <= '9' || c == '.' || c == '_' || c == '%' || c == '+' || c == '-'
  }

  predicate DomainChar(c: char) {
    'A' <= c <= 'Z' || 'a' <= c <= 'z' || '0' <= c <= '9' || c == '.' || c == '-'
  }

  /** An address safe to build a file name from. */
  predicate SieveAddress(a: string) {
    var i := IndexOf(a, '@');
    0 < i && i + 1 < |a| && (forall j | 0 <= j < i :: LocalChar(a[j])) && forall j | i < j < |a| :: DomainChar(a[j])
  }

  function SieveFile(a: string): string { a + ".dovecot.sieve" }

  // ---- What each operation does ----------------------------------------------------------------

  predicate HasOwner(lines: seq<string>, address: string) { exists l :: l in lines && Owner(l) == address }

  function WriteLines(files: Files, path: string, lines: seq<string>): Files { files[path := Unlines(lines)] }

  function SetQuotaLine(files: Files, address: string, quota: string): Files {
    files[QUOTAS := PrintQuotas(QuotaMap(files)[address := quota])]
  }

  function RemoveQuotaLine(files: Files, address: string): Files {
    if address in QuotaMap(files) then files[QUOTAS := PrintQuotas(QuotaMap(files) - {address})] else files
  }

  predicate AnyHit(lines: seq<string>, source: Option<string>, target: string)
    requires forall l | l in lines :: LineOk(l)
  {
    exists l :: l in lines && Hit(l, source, target)
  }

  lemma AnyHitIndex(lines: seq<string>, source: Option<string>, target: string)
    requires forall l | l in lines :: LineOk(l)
    ensures AnyHit(lines, source, target) <==> exists j | 0 <= j < |lines| :: Hit(lines[j], source, target)
  {
    hide Hit, LineOk;
    if AnyHit(lines, source, target) {
      var l :| l in lines && Hit(l, source, target);
      var j :| 0 <= j < |lines| && lines[j] == l;
      assert Hit(lines[j], source, target);
    }
  }

  function RemoveTarget(files: Files, target: string): Files {
    var lines := AliasLines(files);
    if AnyHit(lines, None, target) then WriteLines(files, VIRTUAL, StrikeAll(lines, None, target)) else files
  }

  predicate GivesQuota(quota: Option<string>) { quota.Some? && quota.value != "" }

  /** `hash` is the salted hash of the password. */
  function Create(files: Files, email: string, hash: string, quota: Option<string>): (Files, Result<Mailbox>) {
    var address := Normalise(email);
    var lines := AccountLines(files);
    if '@' !in address then (files, BadRequest)
    else if HasOwner(lines, address) then (files, Conflict)
    else
      var written := WriteLines(files, ACCOUNTS, lines + [AccountLine(address, hash)]);
      (if GivesQuota(quota) then SetQuotaLine(written, address, quota.value) else written, Ok(Mailbox(address, quota)))
  }

  function Delete(files: Files, email: string): (Files, Result<()>) {
    var address := Normalise(email);
    var lines := AccountLines(files);
    if !HasOwner(lines, address) then (files, NotFound)
    else
      var f1 := WriteLines(files, ACCOUNTS, WithoutOwner(lines, address));
      var f2 := RemoveTarget(RemoveQuotaLine(f1, address), address);
      (if SieveAddress(address) then Remove(f2, SieveFile(address)) else f2, Ok(()))
  }

  function SetPassword(files: Files, email: string, hash: string): (Files, Result<Mailbox>) {
    var address := Normalise(email);
    var lines := AccountLines(files);
    if !HasOwner(lines, address) then (files, NotFound)
    else (WriteLines(files, ACCOUNTS, WithHash(lines, address, hash)), Ok(Mailbox(address, QuotaOf(files, address))))
  }

  function SetQuota(files: Files, email: string, quota: Option<string>): (Files, Result<Mailbox>) {
    var address := Normalise(email);
    if address !in Accounts(files) then (files, NotFound)
    else
      var f := if GivesQuota(quota) then SetQuotaLine(files, address, quota.value) else RemoveQuotaLine(files, address);
      (f, Ok(Mailbox(address, QuotaOf(f, address))))
  }

  function AddAlias(files: Files, email: string, alias: string): (Files, Result<string>) {
    var target, source := Normalise(email), Normalise(alias);
    var lines := AliasLines(files);
    if target !in Accounts(files) then (files, NotFound)
    else if '@' !in source || source == target then (files, BadRequest)
    else if source in Accounts(files) || AnyHit(lines, Some(source), target) then (files, Conflict)
    else (WriteLines(files, VIRTUAL, lines + [source + " " + target]), Ok(source))
  }

  function DeleteAlias(files: Files, email: string, alias: string): (Files, Result<()>) {
    var target, source := Normalise(email), Normalise(alias);
    var lines := AliasLines(files);
    if target !in Accounts(files) || !AnyHit(lines, Some(source), target) then (files, NotFound)
    else (WriteLines(files, VIRTUAL, StrikeAll(lines, Some(source), target)), Ok(()))
  }

  function SetSieve(files: Files, email: string, content: string): (Files, Result<()>) {
    var address := Normalise(email);
    if !SieveAddress(address) then (files, BadRequest)
    else if address !in Accounts(files) then (files, NotFound)
    else if Strip(content) == "" then (Remove(files, SieveFile(address)), Ok(()))
    else (files[SieveFile(address) := Strip(content) + "\n"], Ok(()))
  }

  function DeleteSieve(files: Files, email: string): (Files, Result<()>) {
    var address := Normalise(email);
    if !SieveAddress(address) then (files, BadRequest)
    else if address !in Accounts(files) then (files, NotFound)
    else (Remove(files, SieveFile(address)), Ok(()))
  }

  // ---- The service ---------------------------------------------------------------------------

  lemma NoQuotas(lines: seq<string>)
    ensures Quotas(lines[..0]) == map[]
  {}

  class MailboxService {
    const dir: ConfigDir

    constructor (dir: ConfigDir)
      ensures this.dir == dir
    {
      this.dir := dir;
    }

    method ReadFileLines(path: string) returns (lines: seq<string>)
      ensures lines == ReadLines(Read(dir.files, path))
    {
      var content := dir.ReadConfig(path);
      lines := ReadLines(content);
    }

    method WriteFileLines(path: string, lines: seq<string>)
      modifies dir
      ensures dir.files == WriteLines(old(dir.files), path, lines)
    {
      dir.WriteConfig(path, Unlines(lines));
    }

    method ReadQuotas() returns (quotas: map<string, string>)
      ensures quotas == QuotaMap(dir.files)
    {
      hide SplitQuota, Quotas, ReadLines;
      var lines := ReadFileLines(QUOTAS);
      quotas := map[];
      NoQuotas(lines);
      for i := 0 to |lines|
        invariant quotas == Quotas(lines[..i])
      {
        QuotasNext(lines, i);
        var (email, quota) := SplitQuota(lines[i]);
        if email != "" && quota != "" {
          quotas := quotas[email := quota];
        }
      }
      assert lines[..|lines|] == lines;
    }

    method WriteQuota(address: string, quota: string)
      modifies dir
      ensures dir.files == SetQuotaLine(old(dir.files), address, quota)
    {
      var quotas := ReadQuotas();
      dir.WriteConfig(QUOTAS, PrintQuotas(quotas[address := quota]));
    }

    method DropQuota(address: string)
      modifies dir
      ensures dir.files == RemoveQuotaLine(old(dir.files), address)
    {
      var quotas := ReadQuotas();
      if address !in quotas { return; }
      dir.WriteConfig(QUOTAS, PrintQuotas(quotas - {address}));
    }

    method CreateMailbox(email: string, hash: string, quota: Option<string>) returns (r: Result<Mailbox>)
      modifies dir
      ensures (dir.files, r) == Create(old(dir.files), email, hash, quota)
    {
      var address := Normalise(email);
      if '@' !in address { return BadRequest; }
      var lines := ReadFileLines(ACCOUNTS);
      if exists l :: l in lines && Owner(l) == address { return Conflict; }
      WriteFileLines(ACCOUNTS, lines + [AccountLine(address, hash)]);
      if quota.Some? && quota.value != "" { WriteQuota(address, quota.value); }
      r := Ok(Mailbox(address, quota));
    }

    method DeleteMailbox(email: string) returns (r: Result<()>)
      modifies dir
      ensures (dir.files, r) == Delete(old(dir.files), email)
    {
      hide Normalise, Owner, Quotas, ReadLines, Unlines, WithoutOwner, RemoveQuotaLine, RemoveTarget, SieveAddress, SieveFile;
      var address := Normalise(email);
      var lines := ReadFileLines(ACCOUNTS);
      var remaining := WithoutOwner(lines, address);
      WithoutOwnerLength(lines, address);
      if |remaining| == |lines| { return NotFound; }
      WriteFileLines(ACCOUNTS, remaining);
      DropQuota(address);
      RemoveTargetFromAliases(address);
      if SieveAddress(address) { dir.DeleteConfig(SieveFile(address)); }
      r := Ok(());
    }

    method ResetPassword(email: string, hash: string) returns (r: Result<Mailbox>)
      modifies dir
      ensures (dir.files, r) == SetPassword(old(dir.files), email, hash)
    {
      hide Normalise, SplitKey, AccountLine, Quotas, LineOk, Unlines, ReadLines;
      var address := Normalise(email);
      var lines := ReadFileLines(ACCOUNTS);
      var updated: seq<string>, found := [], false;
      for i := 0 to |lines|
        invariant |updated| == i && forall j | 0 <= j < i :: updated[j] == WithHash(lines, address, hash)[j]
        invariant found <==> exists j | 0 <= j < i :: Owner(lines[j]) == address
      {
        if Owner(lines[i]) == address {
          updated := updated + [AccountLine(address, hash)];
          found := true;
        } else {
          updated := updated + [lines[i]];
        }
      }
      assert HasOwner(lines, address) <==> exists j | 0 <= j < |lines| :: Owner(lines[j]) == address;
      assert updated == WithHash(lines, address, hash);
      if !found { return NotFound; }
      WriteFileLines(ACCOUNTS, updated);
      var quotas := ReadQuotas();
      r := Ok(Mailbox(address, if address in quotas then Some(quotas[address]) else None));
    }

    method ChangeQuota(email: string, quota: Option<string>) returns (r: Result<Mailbox>)
      modifies dir
      ensures (dir.files, r) == SetQuota(old(dir.files), email, quota)
    {
      var address := Normalise(email);
      var lines := ReadFileLines(ACCOUNTS);
      if address !in Addresses(lines) { return NotFound; }
      if quota.Some? && quota.value != "" { WriteQuota(address, quota.value); } else { DropQuota(address); }
      var quotas := ReadQuotas();
      r := Ok(Mailbox(address, if address in quotas then Some(quotas[address]) else None));
    }

    method CreateAlias(email: string, alias: string) returns (r: Result<string>)
      modifies dir
      ensures (dir.files, r) == AddAlias(old(dir.files), email, alias)
    {
      hide Normalise, ParseAlias, SplitKey, Addresses, LineOk;
      var target, source := Normalise(email), Normalise(alias);
      var accounts := ReadFileLines(ACCOUNTS);
      if target !in Addresses(accounts) { return NotFound; }
      if '@' !in source { return BadRequest; }
      if source == target { return BadRequest; }
      if source in Addresses(accounts) { return Conflict; }
      var lines := ReadFileLines(VIRTUAL);
      for i := 0 to |lines|
        invariant forall j | 0 <= j < i :: !Hit(lines[j], Some(source), target)
      {
        var (existing, targets) := ParseAlias(lines[i]);
        if existing == source && target in targets { return Conflict; }
      }
      WriteFileLines(VIRTUAL, lines + [source + " " + target]);
      r := Ok(source);
    }

    method RemoveAlias(email: string, alias: string) returns (r: Result<()>)
      modifies dir
      ensures (dir.files, r) == DeleteAlias(old(dir.files), email, alias)
    {
      hide Normalise, ParseAlias, AliasLine, SplitKey, Addresses, LineOk, Without, StrikeAll, Unlines;
      var target, source := Normalise(email), Normalise(alias);
      var accounts := ReadFileLines(ACCOUNTS);
      if target !in Addresses(accounts) { return NotFound; }
      var lines := ReadFileLines(VIRTUAL);
      var rebuilt: seq<string>, found := [], false;
      StrikeNone(lines, Some(source), target);
      for i := 0 to |lines|
        invariant dir.files == old(dir.files)
        invariant rebuilt == StrikeAll(lines[..i], Some(source), target)
        invariant found <==> exists j | 0 <= j < i :: Hit(lines[j], Some(source), target)
      {
        StrikeNext(lines, i, Some(source), target);
        var (lineSource, targets) := ParseAlias(lines[i]);
        if lineSource == source && target in targets {
          found := true;
          var remaining := Without(targets, target);
          if remaining != [] { rebuilt := rebuilt + [AliasLine(lineSource, remaining)]; }
        } else {
          rebuilt := rebuilt + [lines[i]];
        }
      }
      assert lines[..|lines|] == lines;
      assert found == AnyHit(lines, Some(source), target) by { AnyHitIndex(lines, Some(source), target); }
      if !found { return NotFound; }
      WriteFileLines(VIRTUAL, rebuilt);
      r := Ok(());
    }

    method RemoveTargetFromAliases(target: string)
      modifies dir
      ensures dir.files == RemoveTarget(old(dir.files), target)
    {
      hide Normalise, ParseAlias, AliasLine, LineOk, Without, StrikeAll, Unlines;
      var lines := ReadFileLines(VIRTUAL);
      var rebuilt: seq<string>, changed := [], false;
      StrikeNone(lines, None, target);
      for i := 0 to |lines|
        invariant dir.files == old(dir.files)
        invariant rebuilt == StrikeAll(lines[..i], None, target)
        invariant changed <==> exists j | 0 <= j < i :: Hit(lines[j], None, target)
      {
        StrikeNext(lines, i, None, target);
        var (source, targets) := ParseAlias(lines[i]);
        if target in targets {
          changed := true;
          var remaining := Without(targets, target);
          if remaining != [] { rebuilt := rebuilt + [AliasLine(source, remaining)]; }
        } else {
          rebuilt := rebuilt + [lines[i]];
        }
      }
      assert lines[..|lines|] == lines;
      assert changed == AnyHit(lines, None, target) by { AnyHitIndex(lines, None, target); }
      if changed { WriteFileLines(VIRTUAL, rebuilt); }
    }

    method SetSieveScript(email: string, content: string) returns (r: Result<()>)
      modifies dir
      ensures (dir.files, r) == SetSieve(old(dir.files), email, content)
    {
      var address := Normalise(email);
      if !SieveAddress(address) { return BadRequest; }
      var lines := ReadFileLines(ACCOUNTS);
      if address !in Addresses(lines) { return NotFound; }
      var body := Strip(content);
      if body == "" {
        dir.DeleteConfig(SieveFile(address));
      } else {
        dir.WriteConfig(SieveFile(address), body + "\n");
      }
      r := Ok(());
    }

    method DeleteSieveScript(email: string) returns (r: Result<()>)
      modifies dir
      ensures (dir.files, r) == DeleteSieve(old(dir.files), email)
    {
      var address := Normalise(email);
      if !SieveAddress(address) { return BadRequest; }
      var lines := ReadFileLines(ACCOUNTS);
      if address !in Addresses(lines) { return NotFound; }
      dir.DeleteConfig(SieveFile(address));
      r := Ok(());
    }
  }
}
