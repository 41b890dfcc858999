/** The migration of OpenDKIM keys to Rspamd (mailserver_service.py): copy every key whose domain
    Rspamd cannot see yet under Rspamd's naming, then write one signing block per copied key. */
module DkimMigration {
  import opened Text
  import opened Container
  import opened Dkim

  const SIGNING_CONF := "rspamd/override.d/dkim_signing.conf"
  const CONFIG_DIR := "/tmp/docker-mailserver/"

  const PREAMBLE :=
    Unlines(["# Migrated from OpenDKIM by mailserver-ui.", "enabled = true;", "sign_authenticated = true;", "sign_local = false;",
             "try_fallback = false;", "use_domain = \"header\";", "use_esld = true;", "check_pubkey = true;", "", "domain {"])

  /** The size of a PEM-encoded RSA private key; None for anything else. */
  type KeySize = string -> Option<nat>

  function PublicSource(k: DkimKey): string { OPENDKIM + (k.domain + "/" + k.selector + ".txt") }

  function PrivateSource(k: DkimKey): string { OPENDKIM + (k.domain + "/" + k.selector + ".private") }

  function PublicTarget(size: nat, k: DkimKey): string { RSPAMD + (BaseName(size, k.selector, k.domain) + PUBLIC) }

  function PrivateTarget(size: nat, k: DkimKey): string { RSPAMD + (BaseName(size, k.selector, k.domain) + PRIVATE) }

  /** The signing block of one domain: where its private key is and which selector it is published under. */
  function Block(size: nat, k: DkimKey): string {
    Unlines(["    " + k.domain + " {",
             "        path = \"" + (CONFIG_DIR + PrivateTarget(size, k)) + "\";",
             "        selector = \"" + k.selector + "\";",
             "    }"])
  }

  /** The domains with an OpenDKIM key that Rspamd cannot see yet. */
  function Candidates(files: Files, rspamd: bool): seq<string> {
    if !rspamd then [] else Sorted(Domains(OpendkimKeys(files)) - Domains(RspamdKeys(files)))
  }

  function Selected(keys: seq<DkimKey>, domains: seq<string>): (r: seq<DkimKey>)
    ensures forall k :: k in r <==> k in keys && k.domain in domains
  {
    if keys == [] then []
    else
      var n := |keys| - 1;
      if keys[n].domain in domains then Selected(keys[..n], domains) + [keys[n]] else Selected(keys[..n], domains)
  }

  /** The directory and the signing blocks so far; `ok` turns false at the first key that is not RSA. */
  datatype Progress = Progress(files: Files, blocks: string, ok: bool)

  function CopyAll(files: Files, keys: seq<DkimKey>, keySize: KeySize): Progress {
    if keys == [] then Progress(files, "", true)
    else
      var before := CopyAll(files, keys[..|keys| - 1], keySize);
      var k := keys[|keys| - 1];
      if !before.ok then before
      else
        var pem, txt := Read(before.files, PrivateSource(k)), Read(before.files, PublicSource(k));
        match keySize(pem)
        case None => before.(ok := false)
        case Some(size) =>
          Progress(before.files[PrivateTarget(size, k) := pem][PublicTarget(size, k) := txt], before.blocks + Block(size, k), true)
  }

  function Migrate(files: Files, rspamd: bool, keySize: KeySize): (Files, Result<seq<string>>) {
    var domains := Candidates(files, rspamd);
    if !rspamd || domains == [] || Read(files, SIGNING_CONF) != "" then (files, Conflict)
    else
      var p := CopyAll(files, Selected(OpendkimKeys(files), domains), keySize);
      if !p.ok then (p.files, Conflict)
      else (p.files[SIGNING_CONF := PREAMBLE + p.blocks + "}\n"], Ok(domains))
  }

  class DkimService {
    const dir: ConfigDir

    constructor (dir: ConfigDir)
      ensures this.dir == dir
    {
      this.dir := dir;
    }

    /** Copy the keys; on the first one that is not RSA the copies made so far stay behind. */
    method MigrateToRspamd(rspamd: bool, keySize: KeySize) returns (r: Result<seq<string>>)
      modifies dir
      ensures (dir.files, r) == Migrate(old(dir.files), rspamd, keySize)
    {
      hide OpendkimKeys, RspamdKeys, Block, PrivateTarget, PublicTarget, PREAMBLE, CopyAll;
      if !rspamd { return Conflict; }
      var domains := Candidates(dir.files, rspamd);
      if domains == [] { return Conflict; }
      var conf := dir.ReadConfig(SIGNING_CONF);
      if conf != "" { return Conflict; }
      var blocks := "";
      var keys := OpendkimKeys(dir.files);
      ghost var files := dir.files;
      assert keys[..0] == [];
      CopyNone(files, keySize);
      for i := 0 to |keys|
        invariant CopyAll(files, Selected(keys[..i], domains), keySize) == Progress(dir.files, blocks, true)
      {
        assert keys[..i + 1][..i] == keys[..i];
        ghost var before := Selected(keys[..i], domains);
        if keys[i].domain !in domains { continue; }
        CopyNext(files, before, keys[i], keySize);
        var key := keys[i];
        var privatePem := dir.ReadConfig(PrivateSource(key));
        var publicTxt := dir.ReadConfig(PublicSource(key));
        var size := keySize(privatePem);
        if size.None? {
          CopyStops(files, keys, domains, i + 1, keySize);
          return Conflict;
        }
        dir.WriteConfig(PrivateTarget(size.value, key), privatePem);
        dir.WriteConfig(PublicTarget(size.value, key), publicTxt);
        blocks := blocks + Block(size.value, key);
      }
      assert keys[..|keys|] == keys;
      dir.WriteConfig(SIGNING_CONF, PREAMBLE + blocks + "}\n");
      r := Ok(domains);
    }
  }

  lemma CopyNone(files: Files, keySize: KeySize)
    ensures CopyAll(files, [], keySize) == Progress(files, "", true)
  {}

  lemma CopyNext(files: Files, keys: seq<DkimKey>, k: DkimKey, keySize: KeySize)
    ensures var before := CopyAll(files, keys, keySize);
      CopyAll(files, keys + [k], keySize) ==
      if !before.ok then before
      else
        var pem, txt := Read(before.files, PrivateSource(k)), Read(before.files, PublicSource(k));
        match keySize(pem)
        case None => before.(ok := false)
        case Some(size) =>
          Progress(before.files[PrivateTarget(size, k) := pem][PublicTarget(size, k) := txt], before.blocks + Block(size, k), true)
  {
    hide Block, PrivateTarget, PublicTarget, PrivateSource, PublicSource;
    assert (keys + [k])[..|keys|] == keys;
  }

  lemma {:induction false} CopyStops(files: Files, keys: seq<DkimKey>, domains: seq<string>, i: nat, keySize: KeySize)
    requires i <= |keys| && !CopyAll(files, Selected(keys[..i], domains), keySize).ok
    ensures CopyAll(files, Selected(keys, domains), keySize) == CopyAll(files, Selected(keys[..i], domains), keySize)
    decreases |keys| - i
  {
    hide CopyAll;
    if i == |keys| {
      assert keys[..i] == keys;
    } else {
      assert keys[..i + 1][..i] == keys[..i];
      if keys[i].domain in domains { CopyNext(files, Selected(keys[..i], domains), keys[i], keySize); }
      CopyStops(files, keys, domains, i + 1, keySize);
    }
  }

  // ---- What the copies are ----------------------------------------------------------------------------

  function SizeOf(files: Files, k: DkimKey, keySize: KeySize): Option<nat> { keySize(Read(files, PrivateSource(k))) }

  predicate AllRsa(files: Files, keys: seq<DkimKey>, keySize: KeySize) {
    forall k | k in keys :: SizeOf(files, k, keySize).Some?
  }

  /** The files the copies add, read from the directory as it was at the start. */
  function Written(files: Files, keys: seq<DkimKey>, keySize: KeySize): Files
    requires AllRsa(files, keys, keySize)
  {
    if keys == [] then map[]
    else
      var k := keys[|keys| - 1];
      var size := SizeOf(files, k, keySize).value;
      Written(files, keys[..|keys| - 1], keySize)
        [PrivateTarget(size, k) := Read(files, PrivateSource(k))][PublicTarget(size, k) := Read(files, PublicSource(k))]
  }

  function Blocks(files: Files, keys: seq<DkimKey>, keySize: KeySize): string
    requires AllRsa(files, keys, keySize)
  {
    if keys == [] then ""
    else Blocks(files, keys[..|keys| - 1], keySize) + Block(SizeOf(files, keys[|keys| - 1], keySize).value, keys[|keys| - 1])
  }

  lemma SourceNotTarget(k: DkimKey, size: nat, l: DkimKey)
    ensures PublicTarget(size, k) != PublicSource(l) && PublicTarget(size, k) != PrivateSource(l)
    ensures PrivateTarget(size, k) != PublicSource(l) && PrivateTarget(size, k) != PrivateSource(l)
    ensures PublicTarget(size, k) != SIGNING_CONF && PrivateTarget(size, k) != SIGNING_CONF
    ensures PublicSource(l) != SIGNING_CONF && PrivateSource(l) != SIGNING_CONF
  {
    assert PublicTarget(size, k)[0] == 'r' && PrivateTarget(size, k)[0] == 'r';
    assert PublicSource(l)[0] == 'o' && PrivateSource(l)[0] == 'o';
    assert PublicTarget(size, k)[7] == 'd' && PrivateTarget(size, k)[7] == 'd' && SIGNING_CONF[7] == 'o';
  }

  lemma TargetsDiffer(n: nat, k: DkimKey, m: nat, l: DkimKey)
    ensures PublicTarget(n, k) != PrivateTarget(m, l)
    ensures PublicTarget(n, k) == PublicTarget(m, l) || PrivateTarget(n, k) == PrivateTarget(m, l) ==>
      BaseName(n, k.selector, k.domain) == BaseName(m, l.selector, l.domain)
  {
    hide BaseName;
    var a, b := BaseName(n, k.selector, k.domain), BaseName(m, l.selector, l.domain);
    var p, q := PublicTarget(n, k), PrivateTarget(m, l);
    assert p[|p| - 5] == PUBLIC[|PUBLIC| - 5] == 'c';
    assert q[|q| - 5] == PRIVATE[|PRIVATE| - 5] == 'e';
    CutTail(a, b, PUBLIC);
    CutTail(a, b, PRIVATE);
  }

  lemma CutTail(a: string, b: string, tail: string)
    ensures RSPAMD + (a + tail) == RSPAMD + (b + tail) ==> a == b
  {
    var x, y := RSPAMD + (a + tail), RSPAMD + (b + tail);
    assert x[|RSPAMD|..|x| - |tail|] == a && y[|RSPAMD|..|y| - |tail|] == b;
  }

  lemma {:induction false} NoSourceWritten(files: Files, keys: seq<DkimKey>, keySize: KeySize, l: DkimKey)
    requires AllRsa(files, keys, keySize)
    ensures PublicSource(l) !in Written(files, keys, keySize) && PrivateSource(l) !in Written(files, keys, keySize)
    ensures SIGNING_CONF !in Written(files, keys, keySize)
  {
    hide PublicSource, PrivateSource, PublicTarget, PrivateTarget, SIGNING_CONF;
    if keys != [] {
      var n := |keys| - 1;
      assert keys[n] in keys;
      NoSourceWritten(files, keys[..n], keySize, l);
      SourceNotTarget(keys[n], SizeOf(files, keys[n], keySize).value, l);
    }
  }

  /** Sources are read as they were at the start, so the copies are a plain addition of files. */
  lemma {:induction false} CopyIsWritten(files: Files, keys: seq<DkimKey>, keySize: KeySize)
    requires AllRsa(files, keys, keySize)
    ensures CopyAll(files, keys, keySize) == Progress(files + Written(files, keys, keySize), Blocks(files, keys, keySize), true)
    ensures SIGNING_CONF !in Written(files, keys, keySize)
  {
    hide PublicSource, PrivateSource, PublicTarget, PrivateTarget, Block, SIGNING_CONF;
    if keys != [] {
      var n := |keys| - 1;
      var k := keys[n];
      assert k in keys;
      CopyIsWritten(files, keys[..n], keySize);
      NoSourceWritten(files, keys[..n], keySize, k);
      NoSourceWritten(files, keys, keySize, k);
      var w := Written(files, keys[..n], keySize);
      assert Read(files + w, PublicSource(k)) == Read(files, PublicSource(k));
      assert Read(files + w, PrivateSource(k)) == Read(files, PrivateSource(k));
      var size := SizeOf(files, k, keySize).value;
      AddTwo(files, w, PrivateTarget(size, k), Read(files, PrivateSource(k)), PublicTarget(size, k), Read(files, PublicSource(k)));
      hide Read;
    }
  }

  lemma AddTwo(files: Files, w: Files, a: string, x: string, b: string, y: string)
    ensures (files + w)[a := x][b := y] == files + w[a := x][b := y]
  {}

  // ---- The conditions ------------------------------------------------------------------------------------

  /** What a caller can check of one key before migrating it. */
  predicate Migratable(files: Files, k: DkimKey, keySize: KeySize) {
    SizeOf(files, k, keySize).Some? && k.domain != "" &&
    RecordSelector(Read(files, PublicSource(k))) == Some(k.selector) &&
    !Ambiguous(PrintNat(SizeOf(files, k, keySize).value), k.selector, k.domain)
  }

  function NameOf(files: Files, k: DkimKey, keySize: KeySize): string
    requires SizeOf(files, k, keySize).Some?
  {
    BaseName(SizeOf(files, k, keySize).value, k.selector, k.domain)
  }

  /** No two different keys get the same file name. */
  predicate NamesApart(files: Files, keys: seq<DkimKey>, keySize: KeySize)
    requires AllRsa(files, keys, keySize)
  {
    forall k, l | k in keys && l in keys && k != l :: NameOf(files, k, keySize) != NameOf(files, l, keySize)
  }

  /** No copy would replace a record Rspamd can already read. */
  predicate NothingHidden(files: Files, keys: seq<DkimKey>, keySize: KeySize)
    requires AllRsa(files, keys, keySize)
  {
    forall k | k in keys ::
      var rel := NameOf(files, k, keySize) + PUBLIC;
      EndsWith(rel, PUBLIC) && (RSPAMD + rel in files ==> RspamdKey(rel, files[RSPAMD + rel]).None?)
  }

  lemma {:induction false} WrittenAt(files: Files, keys: seq<DkimKey>, keySize: KeySize, k: DkimKey)
    requires AllRsa(files, keys, keySize) && NamesApart(files, keys, keySize) && k in keys
    ensures var size := SizeOf(files, k, keySize).value;
      var w := Written(files, keys, keySize);
      PublicTarget(size, k) in w && w[PublicTarget(size, k)] == Read(files, PublicSource(k)) &&
      PrivateTarget(size, k) in w && w[PrivateTarget(size, k)] == Read(files, PrivateSource(k))
  {
    hide PublicSource, PrivateSource, PublicTarget, PrivateTarget, BaseName;
    var n := |keys| - 1;
    var l := keys[n];
    assert l in keys;
    TargetsDiffer(SizeOf(files, l, keySize).value, l, SizeOf(files, l, keySize).value, l);
    if k != l {
      assert k in keys[..n];
      assert NamesApart(files, keys[..n], keySize);
      WrittenAt(files, keys[..n], keySize, k);
      assert NameOf(files, k, keySize) != NameOf(files, l, keySize);
      TargetsDiffer(SizeOf(files, k, keySize).value, k, SizeOf(files, l, keySize).value, l);
      TargetsDiffer(SizeOf(files, l, keySize).value, l, SizeOf(files, k, keySize).value, k);
    }
  }

  lemma {:induction false} WrittenOnly(files: Files, keys: seq<DkimKey>, keySize: KeySize, p: string)
    requires AllRsa(files, keys, keySize) && p in Written(files, keys, keySize)
    ensures exists k :: k in keys && (p == PublicTarget(SizeOf(files, k, keySize).value, k) || p == PrivateTarget(SizeOf(files, k, keySize).value, k))
  {
    hide PublicSource, PrivateSource, PublicTarget, PrivateTarget;
    var n := |keys| - 1;
    var k := keys[n];
    assert k in keys;
    if p != PublicTarget(SizeOf(files, k, keySize).value, k) && p != PrivateTarget(SizeOf(files, k, keySize).value, k) {
      WrittenOnly(files, keys[..n], keySize, p);
    }
  }

  /** A public file name is not a private one. */
  lemma PublicIsNotPrivate(rel: string, size: nat, k: DkimKey)
    requires EndsWith(rel, PUBLIC)
    ensures RSPAMD + rel != PrivateTarget(size, k)
  {
    var p, q := RSPAMD + rel, PrivateTarget(size, k);
    assert rel[|rel| - |PUBLIC|..][|PUBLIC| - 5] == rel[|rel| - 5];
    assert p[|p| - 5] == rel[|rel| - 5] == PUBLIC[|PUBLIC| - 5] == 'c';
    assert q[|q| - 5] == PRIVATE[|PRIVATE| - 5] == 'e';
  }

  lemma SameRel(a: string, b: string)
    requires RSPAMD + a == RSPAMD + b
    ensures a == b
  {
    assert (RSPAMD + a)[|RSPAMD|..] == a && (RSPAMD + b)[|RSPAMD|..] == b;
  }

  /** A listed key was made from its own source file. */
  lemma OpendkimKeySource(files: Files, k: DkimKey)
    requires k in OpendkimKeys(files)
    ensures k == MakeKey(k.domain, k.selector, Read(files, PublicSource(k)))
  {
    hide OpendkimKey, MakeKey;
    var rels := ListFiles(files, OPENDKIM, ".txt");
    InOpendkimFrom(files, rels, k);
    var rel :| rel in rels && OpendkimKey(rel, Read(files, OPENDKIM + rel)) == Some(k);
    KeyOfRel(rel, Read(files, OPENDKIM + rel), k);
  }

  lemma KeyOfRel(rel: string, raw: string, k: DkimKey)
    requires EndsWith(rel, ".txt") && OpendkimKey(rel, raw) == Some(k)
    ensures rel == k.domain + "/" + k.selector + ".txt" && k == MakeKey(k.domain, k.selector, raw)
  {
    hide Quoted, PublicKey;
    var i := IndexOf(rel, '/');
    var n := |rel| - 4;
    assert rel[n..] == ".txt";
    assert rel == rel[..i] + [rel[i]] + rel[i + 1..n] + rel[n..];
  }

  /** Every copied key is read back by Rspamd as itself. */
  lemma CopiedKeyReadable(files: Files, keys: seq<DkimKey>, keySize: KeySize, k: DkimKey)
    requires AllRsa(files, keys, keySize) && (forall l | l in keys :: Migratable(files, l, keySize)) && NamesApart(files, keys, keySize)
    requires k in keys && k in OpendkimKeys(files)
    ensures k in RspamdKeys(files + Written(files, keys, keySize))
  {
    hide PublicSource, PrivateSource, BaseName, RecordSelector, Ambiguous, RspamdKey, OpendkimKeys, Quoted, PublicKey, Written;
    var after := files + Written(files, keys, keySize);
    var size := SizeOf(files, k, keySize).value;
    var rel := BaseName(size, k.selector, k.domain) + PUBLIC;
    WrittenAt(files, keys, keySize, k);
    OpendkimKeySource(files, k);
    ReadBackIff(size, k.selector, k.domain, Read(files, PublicSource(k)));
    assert RSPAMD + rel in after;
    var rels := ListFiles(after, RSPAMD, PUBLIC);
    assert rel in rels;
    InRspamdFrom(after, rels, k);
  }

  /** Every key Rspamd could read before is still there. */
  lemma OldKeyStays(files: Files, keys: seq<DkimKey>, keySize: KeySize, earlier: DkimKey)
    requires AllRsa(files, keys, keySize) && NothingHidden(files, keys, keySize)
    requires earlier in RspamdKeys(files)
    ensures earlier in RspamdKeys(files + Written(files, keys, keySize))
  {
    hide BaseName, RspamdKey, Written;
    var after := files + Written(files, keys, keySize);
    var rels := ListFiles(files, RSPAMD, PUBLIC);
    InRspamdFrom(files, rels, earlier);
    var rel :| rel in rels && RspamdKey(rel, Read(files, RSPAMD + rel)) == Some(earlier);
    var p := RSPAMD + rel;
    if p in Written(files, keys, keySize) {
      WrittenOnly(files, keys, keySize, p);
      var k :| k in keys && (p == PublicTarget(SizeOf(files, k, keySize).value, k) || p == PrivateTarget(SizeOf(files, k, keySize).value, k));
      PublicIsNotPrivate(rel, SizeOf(files, k, keySize).value, k);
      SameRel(rel, NameOf(files, k, keySize) + PUBLIC);
      assert false;
    }
    assert rel in ListFiles(after, RSPAMD, PUBLIC);
    InRspamdFrom(after, ListFiles(after, RSPAMD, PUBLIC), earlier);
  }

  /** Nothing outside `rspamd/` changes. */
  lemma OpendkimUnchanged(files: Files, keys: seq<DkimKey>, keySize: KeySize, p: string)
    requires AllRsa(files, keys, keySize) && p != "" && p[0] == 'o'
    ensures p !in Written(files, keys, keySize)
  {
    hide Written, BaseName;
    if p in Written(files, keys, keySize) {
      WrittenOnly(files, keys, keySize, p);
      assert false;
    }
  }

  lemma ConfPath(rel: string)
    ensures RSPAMD + rel != SIGNING_CONF && OPENDKIM + rel != SIGNING_CONF
  {
    assert rel != "" ==> (RSPAMD + rel)[7] == 'd' && SIGNING_CONF[7] == 'o';
    assert (OPENDKIM + rel)[0] == 'o' && SIGNING_CONF[0] == 'r';
    assert |RSPAMD| < |SIGNING_CONF|;
  }

  lemma ConfIsNoRspamdKey(files: Files, conf: string, k: DkimKey)
    ensures k in RspamdKeys(files) <==> k in RspamdKeys(files[SIGNING_CONF := conf])
  {
    hide RspamdKey, EndsWith, SIGNING_CONF;
    var g := files[SIGNING_CONF := conf];
    forall rel ensures RSPAMD + rel != SIGNING_CONF { ConfPath(rel); }
    InRspamdFrom(files, ListFiles(files, RSPAMD, PUBLIC), k);
    InRspamdFrom(g, ListFiles(g, RSPAMD, PUBLIC), k);
    hide ListFiles, RspamdFrom;
  }

  /** The signing configuration is not one of the key files. */
  lemma ConfIsNoKey(files: Files, conf: string, k: DkimKey)
    ensures k in RspamdKeys(files) <==> k in RspamdKeys(files[SIGNING_CONF := conf])
    ensures k in OpendkimKeys(files) <==> k in OpendkimKeys(files[SIGNING_CONF := conf])
  {
    hide OpendkimKey, EndsWith, SIGNING_CONF, RspamdKeys;
    ConfIsNoRspamdKey(files, conf, k);
    var g := files[SIGNING_CONF := conf];
    forall rel ensures OPENDKIM + rel != SIGNING_CONF { ConfPath(rel); }
    InOpendkimFrom(files, ListFiles(files, OPENDKIM, ".txt"), k);
    InOpendkimFrom(g, ListFiles(g, OPENDKIM, ".txt"), k);
    hide ListFiles, OpendkimFrom;
  }

  lemma OpendkimKeysStay(files: Files, keys: seq<DkimKey>, keySize: KeySize, k: DkimKey)
    requires AllRsa(files, keys, keySize)
    ensures k in OpendkimKeys(files + Written(files, keys, keySize)) <==> k in OpendkimKeys(files)
  {
    hide OpendkimKey, EndsWith, Written;
    var g := files + Written(files, keys, keySize);
    forall rel ensures OPENDKIM + rel !in Written(files, keys, keySize) {
      assert (OPENDKIM + rel)[0] == 'o';
      OpendkimUnchanged(files, keys, keySize, OPENDKIM + rel);
    }
    InOpendkimFrom(g, ListFiles(g, OPENDKIM, ".txt"), k);
    InOpendkimFrom(files, ListFiles(files, OPENDKIM, ".txt"), k);
  }

  // ---- Main results ------------------------------------------------------------------------------------------

  /** The keys a migration copies. */
  function Keys(files: Files): (r: seq<DkimKey>)
    ensures forall k | k in r :: k in OpendkimKeys(files)
  {
    Selected(OpendkimKeys(files), Candidates(files, true))
  }

  predicate Conditions(files: Files, keys: seq<DkimKey>, keySize: KeySize) {
    AllRsa(files, keys, keySize) && (forall k | k in keys :: Migratable(files, k, keySize)) &&
    NamesApart(files, keys, keySize) && NothingHidden(files, keys, keySize)
  }

  lemma MigrateWrites(files: Files, keySize: KeySize)
    requires AllRsa(files, Keys(files), keySize) && Migrate(files, true, keySize).1.Ok?
    ensures Migrate(files, true, keySize).0
         == (files + Written(files, Keys(files), keySize))
              [SIGNING_CONF := PREAMBLE + Blocks(files, Keys(files), keySize) + "}\n"]
  {
    hide CopyAll, Written, Blocks, PREAMBLE, SIGNING_CONF, Candidates, OpendkimKeys;
    CopyIsWritten(files, Keys(files), keySize);
  }

  /** MAIN: after a successful migration nothing is left to migrate; every migrated key is read back by
      Rspamd with its selector, TXT value and public key; every key Rspamd already read is still read. */
  lemma MigrationComplete(files: Files, keySize: KeySize)
    requires Conditions(files, Keys(files), keySize) && Migrate(files, true, keySize).1.Ok?
    ensures var after := Migrate(files, true, keySize).0;
      Candidates(after, true) == [] &&
      (forall k | k in Keys(files) :: k in RspamdKeys(after)) &&
      (forall k | k in RspamdKeys(files) :: k in RspamdKeys(after))
  {
    hide Written, OpendkimKeys, RspamdKeys, Blocks, PREAMBLE, Migratable, NamesApart, NothingHidden, Migrate, SIGNING_CONF;
    var keys := Keys(files);
    var g := files + Written(files, keys, keySize);
    var conf := PREAMBLE + Blocks(files, keys, keySize) + "}\n";
    var after := Migrate(files, true, keySize).0;
    MigrateWrites(files, keySize);
    forall k | k in keys ensures k in RspamdKeys(after) {
      CopiedKeyReadable(files, keys, keySize, k);
      ConfIsNoKey(g, conf, k);
    }
    forall k | k in RspamdKeys(files) ensures k in RspamdKeys(after) {
      OldKeyStays(files, keys, keySize, k);
      ConfIsNoKey(g, conf, k);
    }
    forall k | k in OpendkimKeys(after) ensures k.domain in Domains(RspamdKeys(after)) {
      ConfIsNoKey(g, conf, k);
      OpendkimKeysStay(files, keys, keySize, k);
      if k.domain in Domains(RspamdKeys(files)) {
        var l :| l in RspamdKeys(files) && l.domain == k.domain;
        assert l in RspamdKeys(after);
      } else {
        assert k in keys;
      }
    }
    assert Domains(OpendkimKeys(after)) - Domains(RspamdKeys(after)) == {};
  }

  /** MAIN: the signing configuration lists one block per migrated key, the private key each block points
      at is the OpenDKIM one, and no OpenDKIM file is touched. */
  lemma MigrationFaithful(files: Files, keySize: KeySize, k: DkimKey, p: string)
    requires Conditions(files, Keys(files), keySize) && Migrate(files, true, keySize).1.Ok?
    ensures var after := Migrate(files, true, keySize).0;
      Read(after, SIGNING_CONF) == PREAMBLE + Blocks(files, Keys(files), keySize) + "}\n" &&
      (k in Keys(files) ==>
        var size := SizeOf(files, k, keySize).value;
        Read(after, PrivateTarget(size, k)) == Read(files, PrivateSource(k)) &&
        Read(after, PublicTarget(size, k)) == Read(files, PublicSource(k))) &&
      (p != "" && p[0] == 'o' ==> (p in after <==> p in files) && Read(after, p) == Read(files, p))
  {
    hide Written, OpendkimKeys, Blocks, PREAMBLE, Migratable, NothingHidden, Migrate, PrivateTarget, PublicTarget, PrivateSource, PublicSource;
    var keys := Keys(files);
    MigrateWrites(files, keySize);
    assert SIGNING_CONF[0] == 'r';
    if k in keys {
      WrittenAt(files, keys, keySize, k);
      SourceNotTarget(k, SizeOf(files, k, keySize).value, k);
    }
    if p != "" && p[0] == 'o' { OpendkimUnchanged(files, keys, keySize, p); }
  }

  /** Keys whose selectors hold no hyphen never collide. */
  lemma HyphenFreeNamesApart(files: Files, keySize: KeySize)
    requires AllRsa(files, Keys(files), keySize)
    requires forall k | k in Keys(files) :: '-' !in k.selector
    ensures NamesApart(files, Keys(files), keySize)
  {
    hide OpendkimKeys, BaseName, MakeKey, Keys;
    var keys := Keys(files);
    forall k, l | k in keys && l in keys && k != l ensures NameOf(files, k, keySize) != NameOf(files, l, keySize) {
      OpendkimKeySource(files, k);
      OpendkimKeySource(files, l);
      if NameOf(files, k, keySize) == NameOf(files, l, keySize) {
        BaseNameInjective(SizeOf(files, k, keySize).value, k.selector, k.domain, SizeOf(files, l, keySize).value, l.selector, l.domain);
      }
    }
  }

  /** Every record Rspamd reads is named, with a hyphen-free selector, after the key it is read as. */
  ghost predicate WellNamed(files: Files) {
    forall rel, o | RSPAMD + rel in files && EndsWith(rel, PUBLIC) && RspamdKey(rel, files[RSPAMD + rel]) == Some(o) ::
      '-' !in o.selector && exists n :: rel == BaseName(n, o.selector, o.domain) + PUBLIC
  }

  lemma SameName(a: string, b: string)
    requires a + PUBLIC == b + PUBLIC
    ensures a == b
  {
    assert (a + PUBLIC)[..|a| + |PUBLIC| - |PUBLIC|] == a && (b + PUBLIC)[..|b|] == b;
  }

  /** With hyphen-free selectors and well-named records no name is taken. */
  lemma WellNamedHidesNothing(files: Files, keySize: KeySize)
    requires AllRsa(files, Keys(files), keySize) && WellNamed(files)
    requires forall k | k in Keys(files) :: '-' !in k.selector
    ensures NothingHidden(files, Keys(files), keySize)
  {
    hide Keys, BaseName, RspamdKey, EndsWith;
    forall k | k in Keys(files)
      ensures var rel := NameOf(files, k, keySize) + PUBLIC;
        EndsWith(rel, PUBLIC) && (RSPAMD + rel in files ==> RspamdKey(rel, files[RSPAMD + rel]).None?) {
      var name := NameOf(files, k, keySize);
      var rel := RecordName(files, k, keySize);
      if RSPAMD + rel in files && RspamdKey(rel, files[RSPAMD + rel]).Some? {
        var o := RspamdKey(rel, files[RSPAMD + rel]).value;
        var n :| rel == BaseName(n, o.selector, o.domain) + PUBLIC;
        SameName(name, BaseName(n, o.selector, o.domain));
        BaseNameInjective(SizeOf(files, k, keySize).value, k.selector, k.domain, n, o.selector, o.domain);
        ReadDomainIsNoCandidate(files, rel, o);
        MigratedIsCandidate(files, k);
        assert false;
      }
    }
  }

  lemma ReadDomainIsNoCandidate(files: Files, rel: string, o: DkimKey)
    requires EndsWith(rel, PUBLIC) && RSPAMD + rel in files && RspamdKey(rel, files[RSPAMD + rel]) == Some(o)
    ensures o.domain !in Candidates(files, true)
  {
    hide OpendkimKeys, RspamdKey, EndsWith;
    var rels := ListFiles(files, RSPAMD, PUBLIC);
    InRspamdFrom(files, rels, o);
    assert rel in rels;
    assert o in RspamdKeys(files);
  }

  lemma MigratedIsCandidate(files: Files, k: DkimKey)
    requires k in Keys(files)
    ensures k.domain in Candidates(files, true)
  {}

  /** MAIN: the conditions hold of RSA keys with hyphen-free selectors other than the printed size, whose records
      open with them, beside well-named Rspamd records. */
  lemma WellFormedMeetsConditions(files: Files, keySize: KeySize)
    requires AllRsa(files, Keys(files), keySize) && WellNamed(files)
    requires forall k | k in Keys(files) ::
      '-' !in k.selector && k.selector != PrintNat(SizeOf(files, k, keySize).value) && k.domain != "" &&
      RecordSelector(Read(files, PublicSource(k))) == Some(k.selector)
    ensures Conditions(files, Keys(files), keySize)
  {
    hide Keys, Ambiguous, RecordSelector, NothingHidden, NamesApart, PublicSource, PrivateSource, WellNamed;
    WellNamedHidesNothing(files, keySize);
    HyphenFreeNamesApart(files, keySize);
    forall k | k in Keys(files) ensures Migratable(files, k, keySize) {
      AmbiguousHyphenFree(SizeOf(files, k, keySize).value, k.selector, k.domain);
    }
  }

  // ---- Exactly when every key is read back ----------------------------------------------------------------

  /** The key Rspamd reads from the record of a name. */
  function KeyUnder(files: Files, rel: string): Option<DkimKey>
    requires EndsWith(rel, PUBLIC)
  {
    RspamdKey(rel, Read(files, RSPAMD + rel))
  }

  function RecordName(files: Files, k: DkimKey, keySize: KeySize): (rel: string)
    requires SizeOf(files, k, keySize).Some?
    ensures EndsWith(rel, PUBLIC)
  {
    hide BaseName;
    var name := NameOf(files, k, keySize);
    assert (name + PUBLIC)[|name|..] == PUBLIC;
    name + PUBLIC
  }

  /** Every migrated key is read back under its name, and every name read before still gives the same key. */
  predicate AllReadBack(files: Files, keySize: KeySize, after: Files)
    requires AllRsa(files, Keys(files), keySize)
  {
    (forall k | k in Keys(files) :: KeyUnder(after, RecordName(files, k, keySize)) == Some(k)) &&
    (forall p | p in files && StartsWith(p, RSPAMD) && EndsWith(p[|RSPAMD|..], PUBLIC) && KeyUnder(files, p[|RSPAMD|..]).Some? ::
      KeyUnder(after, p[|RSPAMD|..]) == KeyUnder(files, p[|RSPAMD|..]))
  }

  lemma ReadAfter(files: Files, keySize: KeySize, rel: string)
    requires AllRsa(files, Keys(files), keySize) && Migrate(files, true, keySize).1.Ok? && EndsWith(rel, PUBLIC)
    ensures Read(Migrate(files, true, keySize).0, RSPAMD + rel) == Read(files + Written(files, Keys(files), keySize), RSPAMD + rel)
  {
    hide Written, PREAMBLE, Blocks, Keys, Migrate;
    MigrateWrites(files, keySize);
    assert |rel| >= |PUBLIC|;
    assert (RSPAMD + rel)[7] == 'd' && SIGNING_CONF[7] == 'o';
  }

  /** Under its name a migrated key is read from its own record. */
  lemma OwnRecord(files: Files, keySize: KeySize, k: DkimKey)
    requires AllRsa(files, Keys(files), keySize) && Migrate(files, true, keySize).1.Ok?
    requires NamesApart(files, Keys(files), keySize) && k in Keys(files)
    ensures KeyUnder(Migrate(files, true, keySize).0, RecordName(files, k, keySize)) == Some(k) <==> Migratable(files, k, keySize)
  {
    hide Written, Keys, Migrate, RspamdKey, BaseName, RecordSelector, Ambiguous, OpendkimKeys, PublicSource, PrivateSource, Quoted, PublicKey;
    var keys, size, rel := Keys(files), SizeOf(files, k, keySize).value, RecordName(files, k, keySize);
    ReadAfter(files, keySize, rel);
    WrittenAt(files, keys, keySize, k);
    assert RSPAMD + rel == PublicTarget(size, k);
    OpendkimKeySource(files, k);
    ReadBackIff(size, k.selector, k.domain, Read(files, PublicSource(k)));
  }

  /** A record Rspamd could read is overwritten only by the copy that gets its name. */
  lemma OldRecordStays(files: Files, keySize: KeySize, rel: string)
    requires AllRsa(files, Keys(files), keySize) && Migrate(files, true, keySize).1.Ok? && EndsWith(rel, PUBLIC)
    requires NothingHidden(files, Keys(files), keySize) && RSPAMD + rel in files && KeyUnder(files, rel).Some?
    ensures KeyUnder(Migrate(files, true, keySize).0, rel) == KeyUnder(files, rel)
  {
    hide Written, Keys, Migrate, RspamdKey, BaseName, EndsWith;
    var keys, p := Keys(files), RSPAMD + rel;
    ReadAfter(files, keySize, rel);
    if p in Written(files, keys, keySize) {
      WrittenOnly(files, keys, keySize, p);
      var k :| k in keys && (p == PublicTarget(SizeOf(files, k, keySize).value, k) || p == PrivateTarget(SizeOf(files, k, keySize).value, k));
      PublicIsNotPrivate(rel, SizeOf(files, k, keySize).value, k);
      SameRel(rel, NameOf(files, k, keySize) + PUBLIC);
      assert false;
    }
  }

  /** A key of a domain Rspamd cannot see is no key Rspamd reads. */
  lemma MigratedIsNew(files: Files, rel: string, k: DkimKey)
    requires k in Keys(files) && EndsWith(rel, PUBLIC) && RSPAMD + rel in files
    ensures KeyUnder(files, rel) != Some(k)
  {
    hide OpendkimKeys, RspamdKey, EndsWith;
    var rels := ListFiles(files, RSPAMD, PUBLIC);
    InRspamdFrom(files, rels, k);
    assert k.domain in Candidates(files, true);
    assert k !in RspamdKeys(files);
    assert rel in rels;
  }

  /** MAIN: a successful migration leaves every migrated key readable under its name, and every record read
      before, if and only if the conditions hold: all records open with their selectors, no marker matches
      early, no two keys share a name and no name was taken. */
  lemma AllReadBackIff(files: Files, keySize: KeySize)
    requires AllRsa(files, Keys(files), keySize) && Migrate(files, true, keySize).1.Ok?
    ensures AllReadBack(files, keySize, Migrate(files, true, keySize).0) <==> Conditions(files, Keys(files), keySize)
  {
    hide Keys, Migrate, KeyUnder, BaseName, Migratable, EndsWith;
    var keys, after := Keys(files), Migrate(files, true, keySize).0;
    if AllReadBack(files, keySize, after) {
      forall k, l | k in keys && l in keys && k != l ensures NameOf(files, k, keySize) != NameOf(files, l, keySize) {
        assert KeyUnder(after, RecordName(files, k, keySize)) != KeyUnder(after, RecordName(files, l, keySize));
      }
      forall k | k in keys ensures Migratable(files, k, keySize) { OwnRecord(files, keySize, k); }
      forall k | k in keys
        ensures var rel := NameOf(files, k, keySize) + PUBLIC;
          EndsWith(rel, PUBLIC) && (RSPAMD + rel in files ==> RspamdKey(rel, files[RSPAMD + rel]).None?) {
        var rel := RecordName(files, k, keySize);
        if RSPAMD + rel in files { TakenName(files, keySize, k, rel, after); }
      }
    } else if Conditions(files, keys, keySize) {
      forall k | k in keys ensures KeyUnder(after, RecordName(files, k, keySize)) == Some(k) { OwnRecord(files, keySize, k); }
      forall p | p in files && StartsWith(p, RSPAMD) && EndsWith(p[|RSPAMD|..], PUBLIC) && KeyUnder(files, p[|RSPAMD|..]).Some?
        ensures KeyUnder(after, p[|RSPAMD|..]) == KeyUnder(files, p[|RSPAMD|..]) {
        assert p == RSPAMD + p[|RSPAMD|..];
        OldRecordStays(files, keySize, p[|RSPAMD|..]);
      }
    }
  }

  lemma TakenName(files: Files, keySize: KeySize, k: DkimKey, rel: string, after: Files)
    requires AllRsa(files, Keys(files), keySize) && AllReadBack(files, keySize, after)
    requires k in Keys(files) && rel == RecordName(files, k, keySize) && RSPAMD + rel in files
    ensures RspamdKey(rel, files[RSPAMD + rel]).None?
  {
    hide Keys, RspamdKey, BaseName, EndsWith;
    var p := RSPAMD + rel;
    assert p[..|RSPAMD|] == RSPAMD && p[|RSPAMD|..] == rel;
    assert KeyUnder(after, rel) == Some(k);
    MigratedIsNew(files, rel, k);
  }

  // ---- A migration that fails half-way ------------------------------------------------------------------------

  lemma {:induction false} CopyStuck(files: Files, keys: seq<DkimKey>, i: nat, keySize: KeySize)
    requires i <= |keys| && !CopyAll(files, keys[..i], keySize).ok
    ensures CopyAll(files, keys, keySize) == CopyAll(files, keys[..i], keySize)
    decreases |keys| - i
  {
    hide CopyAll;
    if i == |keys| {
      assert keys[..i] == keys;
    } else {
      assert keys[..i + 1] == keys[..i] + [keys[i]];
      CopyNext(files, keys[..i], keys[i], keySize);
      CopyStuck(files, keys, i + 1, keySize);
    }
  }

  /** MAIN: when a key is not RSA the migration is refused and no signing configuration is written, but the
      keys before it have been copied: exactly when there is one, candidates are lost, and a repeated
      migration copies none of those keys, hence writes no signing block for them. */
  lemma FailedMigrationStrandsDomains(files: Files, keySize: KeySize, j: nat)
    requires Candidates(files, true) != [] && Read(files, SIGNING_CONF) == ""
    requires j < |Keys(files)| && SizeOf(files, Keys(files)[j], keySize).None?
    requires Conditions(files, Keys(files)[..j], keySize)
    ensures var (after, r) := Migrate(files, true, keySize);
      r == Conflict && Read(after, SIGNING_CONF) == "" && (Candidates(after, true) == Candidates(files, true) <==> j == 0)
    ensures var after := Migrate(files, true, keySize).0;
      forall k | k in Keys(files)[..j] :: k.domain !in Candidates(after, true) && k !in Keys(after)
  {
    hide Written, OpendkimKeys, RspamdKeys, Blocks, Migratable, NamesApart, NothingHidden, CopyAll, SIGNING_CONF;
    var keys := Keys(files);
    var done := keys[..j];
    var (after, r) := Migrate(files, true, keySize);
    CopyIsWritten(files, done, keySize);
    NoSourceWritten(files, done, keySize, keys[j]);
    CopyNext(files, done, keys[j], keySize);
    assert keys[..j + 1] == done + [keys[j]];
    CopyStuck(files, keys, j + 1, keySize);
    assert after == files + Written(files, done, keySize);
    forall k | k in done ensures k.domain in Domains(RspamdKeys(after)) {
      CopiedKeyReadable(files, done, keySize, k);
    }
    if j == 0 {
      NothingWritten(files, keySize);
    } else {
      assert keys[0] in done && keys[0].domain in Candidates(files, true);
    }
  }

  lemma NothingWritten(files: Files, keySize: KeySize)
    ensures files + Written(files, [], keySize) == files
  {}
}
