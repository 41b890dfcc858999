/** What is read from DKIM record files, which domains are candidates for migration and when one goes through. */
module DkimRecords {
  import opened Text
  import opened Container
  import opened Dkim
  import opened DkimMigration

  // ---- The text of a record --------------------------------------------------------------------------------

  /** MAIN: the TXT value of a record is its quoted segments, joined; what stands outside the quotes does not count. */
  lemma QuotedReads(outside: string, segment: string, rest: string)
    requires '"' !in outside && '"' !in segment
    ensures Quoted(outside) == "" && Quoted(outside + ['"'] + segment) == ""
    ensures Quoted(outside + ['"'] + (segment + ['"'] + rest)) == segment + Quoted(rest)
  {
    NotInIndexOf(outside, '"');
    NotInIndexOf(segment, '"');
    PartitionAt(outside, '"', segment);
    PartitionAt(outside, '"', segment + ['"'] + rest);
    PartitionAt(segment, '"', rest);
  }

  predicate Base64(c: char) { 'A' <= c <= 'Z' || 'a' <= c <= 'z' || '0' <= c <= '9' || c == '+' || c == '/' || c == '=' }

  lemma {:induction false} TakesKey(key: string, rest: string)
    requires (forall i | 0 <= i < |key| :: Base64(key[i])) && (rest != "" ==> !Base64(rest[0]))
    ensures TakeBase64(key + rest) == key
  {
    if key == "" {
      assert key + rest == rest;
    } else {
      assert (key + rest)[1..] == key[1..] + rest;
      TakesKey(key[1..], rest);
    }
  }

  /** `p=` stands at position i. */
  predicate TagAt(s: string, i: nat) { i + 1 < |s| && s[i] == 'p' && s[i + 1] == '=' }

  predicate NoTag(s: string) { forall i: nat | i < |s| :: !TagAt(s, i) }

  lemma NoTagTail(s: string)
    requires NoTag(s) && s != ""
    ensures NoTag(s[1..])
  {
    forall i: nat | i < |s[1..]| ensures !TagAt(s[1..], i) { assert !TagAt(s, i + 1); }
  }

  /** MAIN: the public key is what follows the first `p=`, as far as it is Base64. */
  lemma {:induction false} PublicKeyReads(before: string, key: string, rest: string)
    requires NoTag(before)
    requires key != "" && (forall i | 0 <= i < |key| :: Base64(key[i])) && (rest != "" ==> !Base64(rest[0]))
    ensures PublicKey(before + ("p=" + (key + rest))) == key
  {
    var txt := before + ("p=" + (key + rest));
    if before == "" {
      assert txt[2..] == key + rest;
      TakesKey(key, rest);
    } else {
      assert txt[1..] == before[1..] + ("p=" + (key + rest));
      NoTagTail(before);
      assert !TagAt(before, 0);
      assert !(txt[0] == 'p' && txt[1] == '=') by { if |before| > 1 { assert txt[0] == before[0] && txt[1] == before[1]; } }
      PublicKeyReads(before[1..], key, rest);
    }
  }

  /** A record without `p=` has no public key. */
  lemma {:induction false} NoPublicKey(txt: string)
    requires NoTag(txt)
    ensures PublicKey(txt) == ""
  {
    if |txt| >= 3 {
      NoTagTail(txt);
      assert !TagAt(txt, 0);
      NoPublicKey(txt[1..]);
    }
  }

  /** MAIN: a record opens with a selector if and only if its text up to the first white space is the selector, then
      the label, then no further label. */
  lemma SelectorIff(raw: string, selector: string)
    ensures var run := raw[..FirstSpace(raw)];
      RecordSelector(raw) == Some(selector) <==>
      selector != "" && StartsWith(run, selector + "._domainkey") && forall j | |selector| < j <= |run| :: !StartsWith(run[j..], "._domainkey")
  {
    var run := raw[..FirstSpace(raw)];
    var i := LastMark(run, |run|);
    var n := |selector|;
    if StartsWith(run, selector + "._domainkey") {
      assert run[..n] == (selector + "._domainkey")[..n] == selector;
      assert run[n..][..|MARK|] == run[..n + |MARK|][n..] == MARK;
    }
    if i > 0 && run[..i] == selector {
      assert run[..n + |MARK|] == run[..n] + run[n..][..|MARK|];
    }
  }

  // ---- Keys and candidates -----------------------------------------------------------------------------------

  /** The key that an OpenDKIM record file stands for. */
  ghost predicate Stored(files: Files, k: DkimKey) {
    var path := "opendkim/keys/" + (k.domain + "/" + k.selector + ".txt");
    path in files && '/' !in k.domain && '/' !in k.selector && k.txt == Quoted(files[path]) && k.publicKey == PublicKey(k.txt)
  }

  lemma RelIsKey(domain: string, selector: string, raw: string)
    ensures var rel := domain + "/" + selector + ".txt";
      EndsWith(rel, ".txt") && ('/' !in domain && '/' !in selector ==> OpendkimKey(rel, raw) == Some(MakeKey(domain, selector, raw)))
  {
    hide Quoted, PublicKey;
    var rel, tail := domain + "/" + selector + ".txt", selector + ".txt";
    assert rel == domain + ['/'] + tail;
    assert rel[|rel| - 4..] == ".txt";
    if '/' !in domain && '/' !in selector {
      PartitionAt(domain, '/', tail);
      assert '/' !in ".txt";
      assert '/' !in tail;
      assert rel[|domain| + 1..|rel| - 4] == selector;
    }
  }

  lemma KeyHasNoSlash(rel: string, raw: string, k: DkimKey)
    requires EndsWith(rel, ".txt") && OpendkimKey(rel, raw) == Some(k)
    ensures '/' !in k.domain && '/' !in k.selector
  {
    hide Quoted, PublicKey;
    var i := IndexOf(rel, '/');
    assert forall j | 0 <= j < |k.domain| :: k.domain[j] == rel[j];
    assert forall j | 0 <= j < |k.selector| :: k.selector[j] == rel[i + 1..][j];
  }

  /** MAIN: the OpenDKIM keys are exactly those of the record files two levels below the key directory. */
  lemma OpendkimKeysAre(files: Files, k: DkimKey)
    ensures k in OpendkimKeys(files) <==> Stored(files, k)
  {
    hide OpendkimKey, Quoted, PublicKey, EndsWith;
    var rels := ListFiles(files, OPENDKIM, ".txt");
    InOpendkimFrom(files, rels, k);
    var rel := k.domain + "/" + k.selector + ".txt";
    if k in OpendkimKeys(files) {
      var found :| found in rels && OpendkimKey(found, Read(files, OPENDKIM + found)) == Some(k);
      KeyOfRel(found, Read(files, OPENDKIM + found), k);
      KeyHasNoSlash(found, Read(files, OPENDKIM + found), k);
    }
    if Stored(files, k) {
      RelIsKey(k.domain, k.selector, files[OPENDKIM + rel]);
      assert rel in rels;
    }
  }

  /** The key that an Rspamd record file stands for: the selector its text opens with, and what follows the first
      `-selector-` of its name. */
  ghost predicate NamedAs(rel: string, raw: string, k: DkimKey) {
    RecordSelector(raw) == Some(k.selector) && k.txt == Quoted(raw) && k.publicKey == PublicKey(k.txt) && k.domain != "" &&
    exists stem :: rel == stem + ".public.txt" && Follows(stem, "-" + k.selector + "-", k.domain)
  }

  /** The domain is what follows the first occurrence of the marker. */
  ghost predicate Follows(stem: string, marker: string, domain: string) {
    exists head :: stem == head + marker + domain && FirstAt(head, stem, marker)
  }

  predicate FirstAt(head: string, stem: string, marker: string)
    requires |head| <= |stem|
  {
    forall j | 0 <= j < |head| :: !StartsWith(stem[j..], marker)
  }

  lemma FoundParts(stem: string, marker: string)
    requires Find(stem, marker) >= 0
    ensures var i := Find(stem, marker);
      i + |marker| <= |stem| && stem == stem[..i] + marker + stem[i + |marker|..] && forall j | 0 <= j < i :: !StartsWith(stem[j..], marker)
  {
    StartsAt(stem, marker, Find(stem, marker));
  }

  lemma StartsAt(s: string, marker: string, i: nat)
    requires i <= |s| && StartsWith(s[i..], marker)
    ensures i + |marker| <= |s| && s == s[..i] + marker + s[i + |marker|..]
  {
    assert s[i..][..|marker|] == s[i..i + |marker|];
  }

  lemma PartsFound(head: string, marker: string, tail: string)
    requires forall j | 0 <= j < |head| :: !StartsWith((head + marker + tail)[j..], marker)
    ensures Find(head + marker + tail, marker) == |head| && (head + marker + tail)[|head| + |marker|..] == tail
  {
    var stem := head + marker + tail;
    assert stem[|head|..] == marker + tail && (marker + tail)[..|marker|] == marker;
    assert StartsWith(stem[|head|..], marker);
  }

  lemma FollowsIff(stem: string, marker: string, domain: string)
    ensures Follows(stem, marker, domain) <==>
      Find(stem, marker) >= 0 && Find(stem, marker) + |marker| <= |stem| && stem[Find(stem, marker) + |marker|..] == domain
  {
    hide Find, StartsWith;
    if Find(stem, marker) >= 0 {
      FoundParts(stem, marker);
      assert stem[Find(stem, marker) + |marker|..] == domain ==> FirstAt(stem[..Find(stem, marker)], stem, marker);
    }
    if head :| stem == head + marker + domain && FirstAt(head, stem, marker) { PartsFound(head, marker, domain); }
  }

  lemma NamedIff(rel: string, raw: string, k: DkimKey)
    requires EndsWith(rel, ".public.txt")
    ensures RspamdKey(rel, raw) == Some(k) <==> NamedAs(rel, raw, k)
  {
    hide Quoted, PublicKey, RecordSelector, Find, StartsWith, Follows;
    var stem, marker := rel[..|rel| - 11], "-" + k.selector + "-";
    assert rel == stem + ".public.txt";
    assert forall s | rel == s + ".public.txt" :: s == stem;
    FollowsIff(stem, marker, k.domain);
    if Find(stem, marker) >= 0 { FoundParts(stem, marker); }
  }

  /** MAIN: the keys Rspamd sees are exactly those of the record files in its directory, by text and name. */
  lemma RspamdKeysAre(files: Files, k: DkimKey)
    ensures k in RspamdKeys(files) <==>
      exists rel :: EndsWith(rel, ".public.txt") && "rspamd/dkim/" + rel in files && NamedAs(rel, files["rspamd/dkim/" + rel], k)
  {
    hide RspamdKey, EndsWith, NamedAs;
    var rels := ListFiles(files, RSPAMD, PUBLIC);
    InRspamdFrom(files, rels, k);
    forall rel | EndsWith(rel, ".public.txt") && RSPAMD + rel in files
      ensures rel in rels && (RspamdKey(rel, Read(files, RSPAMD + rel)) == Some(k) <==> NamedAs(rel, files["rspamd/dkim/" + rel], k)) {
      NamedIff(rel, files[RSPAMD + rel], k);
    }
  }

  /** The domain has an OpenDKIM key and none that Rspamd reads. */
  ghost predicate Unseen(files: Files, domain: string) {
    (exists k :: k in OpendkimKeys(files) && k.domain == domain) && forall k | k in RspamdKeys(files) :: k.domain != domain
  }

  lemma {:induction false} CopyOkIff(files: Files, keys: seq<DkimKey>, keySize: KeySize)
    ensures CopyAll(files, keys, keySize).ok <==> AllRsa(files, keys, keySize)
  {
    hide CopyAll, PrivateSource, PublicSource;
    if keys == [] {
      CopyNone(files, keySize);
    } else {
      var n := |keys| - 1;
      var before, k := keys[..n], keys[n];
      assert keys == before + [k];
      CopyOkIff(files, before, keySize);
      CopyNext(files, before, k, keySize);
      if AllRsa(files, before, keySize) {
        CopyIsWritten(files, before, keySize);
        NoSourceWritten(files, before, keySize, k);
        assert Read(files + Written(files, before, keySize), PrivateSource(k)) == Read(files, PrivateSource(k));
      }
      assert AllRsa(files, keys, keySize) <==> AllRsa(files, before, keySize) && SizeOf(files, k, keySize).Some?;
    }
  }

  /** MAIN: a migration goes through if and only if Rspamd is on, some domain has an OpenDKIM key it cannot see, no
      signing configuration exists and the private keys of all such domains are RSA; the domains answered are these,
      in order. */
  lemma MigrateAnswers(files: Files, rspamd: bool, keySize: KeySize)
    ensures var r := Migrate(files, rspamd, keySize).1;
      var allRsa := forall k | k in OpendkimKeys(files) && Unseen(files, k.domain) ::
        keySize(Read(files, "opendkim/keys/" + (k.domain + "/" + k.selector + ".private"))).Some?;
      (r.Ok? <==> rspamd && (exists d :: Unseen(files, d)) && Read(files, "rspamd/override.d/dkim_signing.conf") == "" && allRsa) &&
      (!r.Ok? ==> r == Conflict) &&
      (r.Ok? ==> (forall d :: d in r.value <==> Unseen(files, d)) && forall i, j | 0 <= i < j < |r.value| :: r.value[i] != r.value[j] && StrLe(r.value[i], r.value[j]))
  {
    hide OpendkimKeys, RspamdKeys, PREAMBLE, CopyAll, StrLe;
    var domains := Candidates(files, rspamd);
    forall d ensures rspamd ==> (d in domains <==> Unseen(files, d)) {}
    if rspamd && domains != [] {
      assert Unseen(files, domains[0]);
    }
    CopyOkIff(files, Selected(OpendkimKeys(files), domains), keySize);
  }
}
