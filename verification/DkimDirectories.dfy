/** Directories to migrate: one that meets the conditions, one whose key names collide and one that fails
    half-way. */
module DkimDirectories {
  import opened Text
  import opened Container
  import opened Dkim
  import opened DkimMigration

  /** An OpenDKIM key: its record and its private key. */
  datatype Pair = Pair(domain: string, selector: string, txt: string, pem: string)

  function Stem(p: Pair): string { p.domain + "/" + p.selector }

  function KeyOf(p: Pair): DkimKey { MakeKey(p.domain, p.selector, p.txt) }

  predicate PlainNames(p: Pair) { '/' !in p.domain && '/' !in p.selector }

  /** A directory with these two pairs, or with one if they are the same. */
  function Directory(a: Pair, b: Pair): Files {
    map[OPENDKIM + (Stem(a) + ".txt") := a.txt, OPENDKIM + (Stem(a) + ".private") := a.pem,
        OPENDKIM + (Stem(b) + ".txt") := b.txt, OPENDKIM + (Stem(b) + ".private") := b.pem]
  }

  lemma SameTail(a: string, b: string, tail: string)
    ensures OPENDKIM + (a + tail) == OPENDKIM + (b + tail) ==> a == b
  {
    var x, y := OPENDKIM + (a + tail), OPENDKIM + (b + tail);
    assert x[|OPENDKIM|..|x| - |tail|] == a && y[|OPENDKIM|..|y| - |tail|] == b;
  }

  lemma OtherTail(a: string, b: string)
    ensures OPENDKIM + (a + ".txt") != OPENDKIM + (b + ".private")
  {
    var x, y := OPENDKIM + (a + ".txt"), OPENDKIM + (b + ".private");
    assert x[|x| - 1] == 't' && y[|y| - 1] == 'e';
  }

  lemma DirectoryReads(a: Pair, b: Pair)
    requires Stem(a) != Stem(b) || a == b
    ensures var files := Directory(a, b);
      Read(files, PublicSource(KeyOf(a))) == a.txt && Read(files, PrivateSource(KeyOf(a))) == a.pem &&
      Read(files, PublicSource(KeyOf(b))) == b.txt && Read(files, PrivateSource(KeyOf(b))) == b.pem
  {
    hide Stem, Quoted, PublicKey;
    assert PublicSource(KeyOf(a)) == OPENDKIM + (Stem(a) + ".txt") && PrivateSource(KeyOf(a)) == OPENDKIM + (Stem(a) + ".private") by { SourceNames(a); }
    assert PublicSource(KeyOf(b)) == OPENDKIM + (Stem(b) + ".txt") && PrivateSource(KeyOf(b)) == OPENDKIM + (Stem(b) + ".private") by { SourceNames(b); }
    SameTail(Stem(a), Stem(b), ".txt");
    SameTail(Stem(a), Stem(b), ".private");
    OtherTail(Stem(a), Stem(b));
    OtherTail(Stem(b), Stem(a));
    OtherTail(Stem(a), Stem(a));
    OtherTail(Stem(b), Stem(b));
    hide PublicSource, PrivateSource;
  }

  lemma SourceNames(p: Pair)
    ensures PublicSource(KeyOf(p)) == OPENDKIM + (Stem(p) + ".txt") && PrivateSource(KeyOf(p)) == OPENDKIM + (Stem(p) + ".private")
    ensures KeyOf(p).domain == p.domain && KeyOf(p).selector == p.selector
  {
    hide Quoted, PublicKey;
  }

  lemma DirectoryPaths(a: Pair, b: Pair, rel: string)
    ensures var files := Directory(a, b);
      (OPENDKIM + rel in files && EndsWith(rel, ".txt") <==> rel == Stem(a) + ".txt" || rel == Stem(b) + ".txt") &&
      RSPAMD + rel !in files && SIGNING_CONF !in files
  {
    hide Stem;
    NoOtherPaths(Stem(a), rel);
    NoOtherPaths(Stem(b), rel);
  }

  lemma NoOtherPaths(stem: string, rel: string)
    ensures OPENDKIM + rel == OPENDKIM + (stem + ".txt") <==> rel == stem + ".txt"
    ensures EndsWith(rel, ".txt") ==> OPENDKIM + rel != OPENDKIM + (stem + ".private")
    ensures EndsWith(stem + ".txt", ".txt")
    ensures RSPAMD + rel != OPENDKIM + (stem + ".txt") && RSPAMD + rel != OPENDKIM + (stem + ".private")
    ensures SIGNING_CONF != OPENDKIM + (stem + ".txt") && SIGNING_CONF != OPENDKIM + (stem + ".private")
  {
    var x, y := stem + ".txt", stem + ".private";
    assert x[|stem|..] == ".txt" && y[|y| - 1] == 'e';
    assert (OPENDKIM + x)[|OPENDKIM|..] == x && (OPENDKIM + y)[|OPENDKIM|..] == y && (OPENDKIM + rel)[|OPENDKIM|..] == rel;
    assert EndsWith(rel, ".txt") ==> rel[|rel| - 4..][3] == 't';
    assert (RSPAMD + rel)[0] == 'r' && (OPENDKIM + x)[0] == 'o' && (OPENDKIM + y)[0] == 'o' && SIGNING_CONF[0] == 'r';
  }

  lemma KeyOfPath(p: Pair)
    requires PlainNames(p)
    ensures EndsWith(Stem(p) + ".txt", ".txt") && OpendkimKey(Stem(p) + ".txt", p.txt) == Some(KeyOf(p))
  {
    hide MakeKey;
    var rel, tail := p.domain + "/" + p.selector + ".txt", p.selector + ".txt";
    assert rel == p.domain + ['/'] + tail;
    PartitionAt(p.domain, '/', tail);
    assert rel[|rel| - 4..] == ".txt";
    assert rel[|p.domain| + 1..|rel| - 4] == p.selector;
    assert forall c | c in ".txt" :: c != '/';
  }

  /** Exactly the two keys are listed, and none for Rspamd. */
  lemma DirectoryKeys(a: Pair, b: Pair, k: DkimKey)
    requires PlainNames(a) && PlainNames(b) && (Stem(a) != Stem(b) || a == b)
    ensures var files := Directory(a, b);
      (k in OpendkimKeys(files) <==> k == KeyOf(a) || k == KeyOf(b)) && k !in RspamdKeys(files)
  {
    hide Directory, KeyOf, EndsWith, Stem, OpendkimKey, RspamdKey, PlainNames;
    var files := Directory(a, b);
    var rels := ListFiles(files, OPENDKIM, ".txt");
    forall rel ensures rel in rels <==> rel == Stem(a) + ".txt" || rel == Stem(b) + ".txt" { DirectoryPaths(a, b, rel); }
    forall rel ensures rel !in ListFiles(files, RSPAMD, PUBLIC) { DirectoryPaths(a, b, rel); }
    DirectoryReads(a, b);
    SourceNames(a);
    SourceNames(b);
    InOpendkimFrom(files, rels, k);
    InRspamdFrom(files, ListFiles(files, RSPAMD, PUBLIC), k);
    KeyOfPath(a);
    KeyOfPath(b);
  }

  lemma PairInOrder(r: seq<string>, x: string, y: string)
    requires (forall k :: k in r <==> k == x || k == y) && x != y && !StrLe(y, x)
    requires forall i, j | 0 <= i < j < |r| :: r[i] != r[j] && StrLe(r[i], r[j])
    ensures r == [x, y]
  {
    hide StrLe;
    assert x in r && y in r;
    var i :| 0 <= i < |r| && r[i] == x;
    var j :| 0 <= j < |r| && r[j] == y;
    forall m | 0 <= m < |r| ensures r[m] == x || r[m] == y { assert r[m] in r; }
    assert i < j;
    assert r[0] != y && r[1] != x && r[|r| - 1] != x;
  }

  lemma FromTwo(files: Files, x: string, y: string, k: DkimKey, l: DkimKey)
    requires EndsWith(x, ".txt") && EndsWith(y, ".txt")
    requires OpendkimKey(x, Read(files, OPENDKIM + x)) == Some(k) && OpendkimKey(y, Read(files, OPENDKIM + y)) == Some(l)
    ensures OpendkimFrom(files, [x, y]) == [k, l]
  {
    hide OpendkimKey, EndsWith, Read;
    assert [x, y][..1] == [x] && [x][..0] == [];
    assert OpendkimFrom(files, []) == [];
    assert OpendkimFrom(files, [x]) == [k];
  }

  lemma SelectedTwo(k: DkimKey, l: DkimKey, domains: seq<string>)
    requires k.domain in domains && l.domain in domains
    ensures Selected([k, l], domains) == [k, l]
  {
    assert [k, l][..1] == [k] && [k][..0] == [];
    assert Selected([], domains) == [];
    assert Selected([k], domains) == [k];
  }

  lemma DirectoryInOrder(a: Pair, b: Pair)
    requires PlainNames(a) && PlainNames(b) && Stem(a) != Stem(b) && !StrLe(Stem(b) + ".txt", Stem(a) + ".txt")
    ensures OpendkimKeys(Directory(a, b)) == [KeyOf(a), KeyOf(b)]
  {
    hide Directory, KeyOf, EndsWith, Stem, OpendkimKey, StrLe, PlainNames;
    var files := Directory(a, b);
    var x, y := Stem(a) + ".txt", Stem(b) + ".txt";
    forall rel ensures rel in ListFiles(files, OPENDKIM, ".txt") <==> rel == x || rel == y { DirectoryPaths(a, b, rel); }
    SameTail(Stem(a), Stem(b), ".txt");
    PairInOrder(ListFiles(files, OPENDKIM, ".txt"), x, y);
    DirectoryReads(a, b);
    SourceNames(a);
    SourceNames(b);
    KeyOfPath(a);
    KeyOfPath(b);
    FromTwo(files, x, y, KeyOf(a), KeyOf(b));
  }

  /** All keys of such a directory are to be migrated. */
  lemma DirectoryCandidates(a: Pair, b: Pair)
    requires PlainNames(a) && PlainNames(b) && (Stem(a) != Stem(b) || a == b)
    ensures var files := Directory(a, b);
      Candidates(files, true) != [] && a.domain in Candidates(files, true) && b.domain in Candidates(files, true) &&
      Read(files, SIGNING_CONF) == "" && (forall k :: k in Keys(files) <==> k == KeyOf(a) || k == KeyOf(b)) &&
      (OpendkimKeys(files) == [KeyOf(a), KeyOf(b)] ==> Keys(files) == [KeyOf(a), KeyOf(b)])
  {
    hide Directory, KeyOf, OpendkimKeys, RspamdKeys, Stem, PlainNames;
    var files := Directory(a, b);
    forall k ensures (k in OpendkimKeys(files) <==> k == KeyOf(a) || k == KeyOf(b)) && k !in RspamdKeys(files) { DirectoryKeys(a, b, k); }
    DirectoryPaths(a, b, "");
    SourceNames(a);
    SourceNames(b);
    assert KeyOf(a).domain in Domains(OpendkimKeys(files)) - Domains(RspamdKeys(files));
    assert KeyOf(b).domain in Domains(OpendkimKeys(files)) - Domains(RspamdKeys(files));
    SelectedTwo(KeyOf(a), KeyOf(b), Candidates(files, true));
  }

  // ---- One pair migrates -----------------------------------------------------------------------------------

  /** MAIN: a key pair whose record opens with its hyphen-free selector, which is not the printed size of its
      RSA key, migrates: the conditions hold and the migration succeeds. */
  lemma OnePairMigrates(p: Pair, keySize: KeySize)
    requires PlainNames(p) && p.domain != "" && '-' !in p.selector
    requires RecordSelector(p.txt) == Some(p.selector) && keySize(p.pem).Some? && p.selector != PrintNat(keySize(p.pem).value)
    ensures var files := Directory(p, p);
      Conditions(files, Keys(files), keySize) && Migrate(files, true, keySize).1.Ok?
  {
    hide Directory, KeyOf, Keys, OpendkimKeys, RspamdKeys, RecordSelector, CopyAll, PREAMBLE, Ambiguous, SIGNING_CONF, Written, Blocks, PublicSource, PrivateSource;
    var files := Directory(p, p);
    DirectoryCandidates(p, p);
    DirectoryReads(p, p);
    SourceNames(p);
    forall rel ensures RSPAMD + rel !in files { DirectoryPaths(p, p, rel); }
    AmbiguousHyphenFree(keySize(p.pem).value, p.selector, p.domain);
    assert Migratable(files, KeyOf(p), keySize);
    forall k | k in Keys(files) ensures EndsWith(NameOf(files, k, keySize) + PUBLIC, PUBLIC) {}
    CopyIsWritten(files, Keys(files), keySize);
    assert Selected(OpendkimKeys(files), Candidates(files, true)) == Keys(files) by { KeysAre(files); }
  }

  lemma KeysAre(files: Files)
    ensures Keys(files) == Selected(OpendkimKeys(files), Candidates(files, true))
  {}

  // ---- A migration that fails half-way -----------------------------------------------------------------------

  /** Of two keys, the second not RSA, the first is stranded: no candidate any more, no signing block. */
  lemma SecondKeyNotRsa(a: Pair, b: Pair, keySize: KeySize)
    requires a.domain == "a" && b.domain == "b" && PlainNames(a) && PlainNames(b) && '-' !in a.selector
    requires RecordSelector(a.txt) == Some(a.selector) && keySize(a.pem).Some? && a.selector != PrintNat(keySize(a.pem).value)
    requires keySize(b.pem).None?
    ensures var files := Directory(a, b);
      var (after, r) := Migrate(files, true, keySize);
      r == Conflict && Read(after, SIGNING_CONF) == "" && Keys(files) == [KeyOf(a), KeyOf(b)] &&
      "a" in Candidates(files, true) && "a" !in Candidates(after, true) && KeyOf(a) !in Keys(after)
  {
    hide Directory, KeyOf, Keys, OpendkimKeys, RspamdKeys, Candidates, RecordSelector, Migrate, Ambiguous, SIGNING_CONF, PublicSource, PrivateSource;
    var files := Directory(a, b);
    StemOrder(a, b, 'a', 'b');
    DirectoryInOrder(a, b);
    DirectoryCandidates(a, b);
    DirectoryReads(a, b);
    SourceNames(a);
    SourceNames(b);
    forall rel ensures RSPAMD + rel !in files { DirectoryPaths(a, b, rel); }
    AmbiguousHyphenFree(keySize(a.pem).value, a.selector, a.domain);
    var keys := Keys(files);
    assert keys[..1] == [KeyOf(a)] && keys[1] == KeyOf(b);
    assert Migratable(files, KeyOf(a), keySize);
    forall k | k in keys[..1] ensures EndsWith(NameOf(files, k, keySize) + PUBLIC, PUBLIC) {}
    assert Conditions(files, keys[..1], keySize);
    FailedMigrationStrandsDomains(files, keySize, 1);
    assert KeyOf(a) in keys[..1];
  }

  lemma StemOrder(a: Pair, b: Pair, c: char, d: char)
    requires a.domain != "" && b.domain != "" && a.domain[0] == c < d == b.domain[0]
    ensures Stem(a) != Stem(b) && !StrLe(Stem(b) + ".txt", Stem(a) + ".txt")
  {
    var x, y := Stem(a) + ".txt", Stem(b) + ".txt";
    assert x[0] == c && y[0] == d && Stem(a)[0] == c && Stem(b)[0] == d;
  }

  // ---- Two keys with one name ----------------------------------------------------------------------------------

  const FIRST_DOMAIN := "b-c.example"
  const SECOND_DOMAIN := "c.example"

  predicate Colliding(a: Pair, b: Pair, n: nat, keySize: KeySize) {
    a.domain == FIRST_DOMAIN && a.selector == "a" && b.domain == SECOND_DOMAIN && b.selector == "a-b" &&
    RecordSelector(a.txt) == Some(a.selector) && RecordSelector(b.txt) == Some(b.selector) &&
    keySize(a.pem) == Some(n) && keySize(b.pem) == Some(n)
  }

  lemma OneName(n: nat)
    ensures BaseName(n, "a", FIRST_DOMAIN) == BaseName(n, "a-b", SECOND_DOMAIN)
  {
    var p := PrintNat(n);
    assert FIRST_DOMAIN == "b-" + SECOND_DOMAIN;
    assert p + "-" + "a" + "-" + FIRST_DOMAIN == p + "-" + "a-b" + "-" + SECOND_DOMAIN;
  }

  lemma NotEarly(n: nat)
    ensures !Ambiguous(PrintNat(n), "a-b", SECOND_DOMAIN)
  {
    var p := PrintNat(n);
    var s := p + "-" + "a-b" + "-" + SECOND_DOMAIN;
    assert IsDigit(p[0]) && s[0] == p[0] && ("a-b" + "-")[0] == 'a';
  }

  /** The directory, its keys and the name they share. */
  lemma CollidingKeys(a: Pair, b: Pair, n: nat, keySize: KeySize)
    requires Colliding(a, b, n, keySize)
    ensures var files := Directory(a, b);
      Keys(files) == [KeyOf(a), KeyOf(b)] && SizeOf(files, KeyOf(a), keySize) == Some(n) && SizeOf(files, KeyOf(b), keySize) == Some(n) &&
      AllRsa(files, Keys(files), keySize) && Migrate(files, true, keySize).1.Ok? && KeyOf(a).domain == FIRST_DOMAIN && KeyOf(b).domain == SECOND_DOMAIN
    ensures var files := Directory(a, b);
      Read(files, PublicSource(KeyOf(b))) == b.txt && PublicTarget(n, KeyOf(a)) == PublicTarget(n, KeyOf(b))
  {
    hide Directory, KeyOf, Keys, OpendkimKeys, RspamdKeys, RecordSelector, CopyAll, PREAMBLE, SIGNING_CONF, Written, Blocks, PublicSource, PrivateSource, BaseName;
    var files := Directory(a, b);
    assert PlainNames(a) && PlainNames(b);
    StemOrder(a, b, 'b', 'c');
    DirectoryInOrder(a, b);
    DirectoryCandidates(a, b);
    DirectoryReads(a, b);
    SourceNames(a);
    SourceNames(b);
    OneName(n);
    CopyIsWritten(files, Keys(files), keySize);
    KeysAre(files);
  }

  /** What is left under the shared name is the record copied last. */
  lemma LastRecordStays(files: Files, k: DkimKey, l: DkimKey, keySize: KeySize, n: nat)
    requires SizeOf(files, k, keySize) == Some(n) && SizeOf(files, l, keySize) == Some(n)
    requires PublicTarget(n, k) == PublicTarget(n, l)
    ensures AllRsa(files, [k, l], keySize) && PublicTarget(n, k) in Written(files, [k, l], keySize)
    ensures Written(files, [k, l], keySize)[PublicTarget(n, k)] == Read(files, PublicSource(l))
  {
    hide PublicTarget, PrivateTarget, PublicSource, PrivateSource, Read;
    assert [k, l][..1] == [k];
  }

  lemma OnlyOneRecord(a: Pair, b: Pair, n: nat, keySize: KeySize, rel: string)
    requires Colliding(a, b, n, keySize) && EndsWith(rel, PUBLIC) && RSPAMD + rel in Migrate(Directory(a, b), true, keySize).0
    ensures RspamdKey(rel, Read(Migrate(Directory(a, b), true, keySize).0, RSPAMD + rel)) == Some(KeyOf(b))
  {
    hide Directory, KeyOf, Keys, RecordSelector, Migrate, PREAMBLE, Written, Blocks, PublicSource, PrivateSource, BaseName, RspamdKey, Ambiguous, EndsWith;
    var files := Directory(a, b);
    CollidingKeys(a, b, n, keySize);
    var keys, p := Keys(files), RSPAMD + rel;
    DirectoryPaths(a, b, rel);
    MigrateWrites(files, keySize);
    ReadAfter(files, keySize, rel);
    assert p in Written(files, keys, keySize) by { assert p[7] == 'd' || |rel| == 0; assert SIGNING_CONF[7] == 'o' && |SIGNING_CONF| > |RSPAMD|; }
    WrittenOnly(files, keys, keySize, p);
    var k :| k in keys && (p == PublicTarget(SizeOf(files, k, keySize).value, k) || p == PrivateTarget(SizeOf(files, k, keySize).value, k));
    PublicIsNotPrivate(rel, SizeOf(files, k, keySize).value, k);
    LastRecordStays(files, KeyOf(a), KeyOf(b), keySize, n);
    SameRel(rel, BaseName(n, KeyOf(b).selector, KeyOf(b).domain) + PUBLIC);
    SourceNames(b);
    NotEarly(n);
    ReadBackIff(n, b.selector, b.domain, b.txt);
    KeyIsMade(b);
  }

  lemma KeyIsMade(p: Pair)
    ensures KeyOf(p) == MakeKey(p.domain, p.selector, p.txt)
  {}

  /** Rspamd reads the second key and nothing else. */
  lemma OnlySecondKey(a: Pair, b: Pair, n: nat, keySize: KeySize, k: DkimKey)
    requires Colliding(a, b, n, keySize)
    ensures k in RspamdKeys(Migrate(Directory(a, b), true, keySize).0) <==> k == KeyOf(b)
  {
    hide Directory, KeyOf, RspamdKey, Migrate, Colliding, EndsWith;
    var after := Migrate(Directory(a, b), true, keySize).0;
    var rels := ListFiles(after, RSPAMD, PUBLIC);
    forall rel | rel in rels ensures RspamdKey(rel, Read(after, RSPAMD + rel)) == Some(KeyOf(b)) { OnlyOneRecord(a, b, n, keySize, rel); }
    SharedRecord(a, b, n, keySize);
    InRspamdFrom(after, rels, k);
  }

  lemma FirstKeyStays(a: Pair, b: Pair, n: nat, keySize: KeySize)
    requires Colliding(a, b, n, keySize)
    ensures KeyOf(a) in OpendkimKeys(Migrate(Directory(a, b), true, keySize).0)
  {
    hide Directory, KeyOf, Keys, OpendkimKeys, Migrate, PREAMBLE, Written, Blocks, Colliding, SIGNING_CONF;
    var files := Directory(a, b);
    CollidingKeys(a, b, n, keySize);
    assert KeyOf(a) in Keys(files);
    OpendkimKeysStay(files, Keys(files), keySize, KeyOf(a));
    MigrateWrites(files, keySize);
    ConfIsNoKey(files + Written(files, Keys(files), keySize), PREAMBLE + Blocks(files, Keys(files), keySize) + "}\n", KeyOf(a));
  }

  /** MAIN: of two keys whose names collide the migration, although it succeeds, loses the first: its record is
      replaced by the other's, Rspamd does not read it, and its domain still is a candidate. */
  lemma CollidingKeyIsLost(a: Pair, b: Pair, n: nat, keySize: KeySize)
    requires Colliding(a, b, n, keySize)
    ensures var files := Directory(a, b);
      var (after, r) := Migrate(files, true, keySize);
      r.Ok? && KeyOf(a) in Keys(files) && KeyOf(b) in RspamdKeys(after) && (forall k | k in RspamdKeys(after) :: k == KeyOf(b)) &&
      FIRST_DOMAIN in Candidates(after, true)
  {
    hide Directory, KeyOf, Keys, OpendkimKeys, RspamdKeys, Migrate, Colliding, FIRST_DOMAIN, SECOND_DOMAIN;
    var files := Directory(a, b);
    var after := Migrate(files, true, keySize).0;
    CollidingKeys(a, b, n, keySize);
    DomainsDiffer();
    forall k ensures k in RspamdKeys(after) <==> k == KeyOf(b) { OnlySecondKey(a, b, n, keySize, k); }
    FirstKeyStays(a, b, n, keySize);
    assert KeyOf(a).domain in Domains(OpendkimKeys(after)) - Domains(RspamdKeys(after));
  }

  lemma DomainsDiffer()
    ensures FIRST_DOMAIN != SECOND_DOMAIN
  {
    assert FIRST_DOMAIN[0] != SECOND_DOMAIN[0];
  }

  /** There is such a record. */
  lemma SharedRecord(a: Pair, b: Pair, n: nat, keySize: KeySize)
    requires Colliding(a, b, n, keySize)
    ensures exists rel :: rel in ListFiles(Migrate(Directory(a, b), true, keySize).0, RSPAMD, PUBLIC)
  {
    hide Directory, KeyOf, Keys, Migrate, PREAMBLE, Written, Blocks, BaseName, Colliding, SIGNING_CONF, PrivateTarget;
    var files := Directory(a, b);
    var after := Migrate(files, true, keySize).0;
    CollidingKeys(a, b, n, keySize);
    MigrateWrites(files, keySize);
    LastRecordStays(files, KeyOf(a), KeyOf(b), keySize, n);
    var rel := RecordName(files, KeyOf(a), keySize);
    assert RSPAMD + rel == PublicTarget(n, KeyOf(a));
    assert RSPAMD + rel in after;
    assert rel in ListFiles(after, RSPAMD, PUBLIC);
  }
}
