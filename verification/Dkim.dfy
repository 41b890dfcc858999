/** DKIM keys of the two signing engines and their naming (mailserver_service.py). OpenDKIM stores
    `<domain>/<selector>.txt`; Rspamd stores `rsa-<size>-<selector>-<domain>.public.txt`, from which the
    domain is recovered with the selector that opens the record (section 3.6.2.1 of RFC 6376). */
module Dkim {
  import opened Text
  import opened Container

  const OPENDKIM := "opendkim/keys/"
  const RSPAMD := "rspamd/dkim/"
  const MARK := "._domainkey"
  const PUBLIC := ".public.txt"
  const PRIVATE := ".private.txt"

  datatype DkimKey = DkimKey(domain: string, selector: string, txt: string, publicKey: string)

  // ---- The record text -----------------------------------------------------------------------

  /** All double-quoted segments, joined. */
  function Quoted(raw: string): string
    decreases |raw|
  {
    var i := IndexOf(raw, '"');
    if i == |raw| then ""
    else
      var rest := raw[i + 1..];
      var j := IndexOf(rest, '"');
      if j == |rest| then "" else rest[..j] + Quoted(rest[j + 1..])
  }

  predicate Base64Char(c: char) {
    'A' <= c <= 'Z' || 'a' <= c <= 'z' || '0' <= c <= '9' || c == '+' || c == '/' || c == '='
  }

  function TakeBase64(s: string): string {
    if s == "" || !Base64Char(s[0]) then "" else [s[0]] + TakeBase64(s[1..])
  }

  /** What follows the first `p=` that has a value. */
  function PublicKey(txt: string): string {
    if |txt| < 3 then ""
    else if txt[0] == 'p' && txt[1] == '=' && Base64Char(txt[2]) then TakeBase64(txt[2..])
    else PublicKey(txt[1..])
  }

  function MakeKey(domain: string, selector: string, raw: string): DkimKey {
    DkimKey(domain, selector, Quoted(raw), PublicKey(Quoted(raw)))
  }

  /** The last position, not the first one, where the mark starts; 0 when there is none. */
  function LastMark(run: string, i: nat): (r: nat)
    requires i <= |run|
    ensures r <= i && (r > 0 ==> StartsWith(run[r..], MARK))
    ensures forall j | r < j <= i :: !StartsWith(run[j..], MARK)
  {
    if i == 0 || StartsWith(run[i..], MARK) then i else LastMark(run, i - 1)
  }

  /** The selector a record opens with: `^(\S+)\._domainkey`, greedy. */
  function RecordSelector(raw: string): Option<string> {
    var run := raw[..FirstSpace(raw)];
    var i := LastMark(run, |run|);
    if i == 0 then None else Some(run[..i])
  }

  /** A record `<selector>._domainkey <white space> ...` names its selector. */
  lemma RecordOpensWithSelector(selector: string, sep: char, rest: string)
    requires selector != "" && NoSpace(selector) && IsSpace(sep)
    ensures RecordSelector(selector + MARK + [sep] + rest) == Some(selector)
  {
    var run := selector + MARK;
    var raw := run + [sep] + rest;
    assert NoSpace(MARK);
    assert forall j | 0 <= j < |run| :: raw[j] == run[j] == if j < |selector| then selector[j] else MARK[j - |selector|];
    assert raw[|run|] == sep;
    assert FirstSpace(raw) == |run| && raw[..|run|] == run;
    assert run[|selector|..] == MARK;
    assert StartsWith(run[|selector|..], MARK);
    assert run[..|selector|] == selector;
    assert forall j | |selector| < j <= |run| :: !StartsWith(run[j..], MARK);
  }

  // ---- Listing keys ----------------------------------------------------------------------------

  /** The files below a directory (given with its slash) whose name ends with the suffix, sorted. */
  function ListFiles(files: Files, dir: string, suffix: string): (r: seq<string>)
    ensures forall rel :: rel in r <==> dir + rel in files && EndsWith(rel, suffix)
  {
    var rels := set p | p in files && StartsWith(p, dir) && EndsWith(p[|dir|..], suffix) :: p[|dir|..];
    assert forall rel | dir + rel in files && EndsWith(rel, suffix) :: rel in rels by {
      forall rel | dir + rel in files && EndsWith(rel, suffix) ensures rel in rels {
        var p := dir + rel;
        assert p[..|dir|] == dir && p[|dir|..] == rel;
      }
    }
    assert forall p | StartsWith(p, dir) :: p == dir + p[|dir|..];
    Sorted(rels)
  }

  function OpendkimKey(rel: string, raw: string): Option<DkimKey>
    requires EndsWith(rel, ".txt")
  {
    var i := IndexOf(rel, '/');
    if i == |rel| || '/' in rel[i + 1..] then None
    else
      assert i < |rel| - 4 by { assert forall j | |rel| - 4 <= j < |rel| :: rel[j] == ".txt"[j - (|rel| - 4)]; }
      Some(MakeKey(rel[..i], rel[i + 1..|rel| - 4], raw))
  }

  /** First position of a pattern, or -1. */
  function Find(s: string, pattern: string): (i: int)
    ensures -1 <= i <= |s|
    ensures i >= 0 ==> StartsWith(s[i..], pattern)
    ensures forall j | 0 <= j < (if i < 0 then |s| + 1 else i) :: !StartsWith(s[j..], pattern)
  {
    if StartsWith(s, pattern) then assert s[0..] == s; 0
    else if s == "" then -1
    else
      var i := Find(s[1..], pattern);
      assert forall j | 1 <= j <= |s| :: s[j..] == s[1..][j - 1..];
      if i < 0 then -1 else i + 1
  }

  function RspamdKey(rel: string, raw: string): Option<DkimKey>
    requires EndsWith(rel, PUBLIC)
  {
    match RecordSelector(raw)
    case None => None
    case Some(selector) =>
      var stem := rel[..|rel| - |PUBLIC|];
      var marker := "-" + selector + "-";
      var i := Find(stem, marker);
      if i < 0 || stem[i + |marker|..] == "" then None else Some(MakeKey(stem[i + |marker|..], selector, raw))
  }

  function AsList(o: Option<DkimKey>): seq<DkimKey> { if o.Some? then [o.value] else [] }

  function OpendkimFrom(files: Files, rels: seq<string>): seq<DkimKey>
    requires forall rel | rel in rels :: EndsWith(rel, ".txt")
  {
    if rels == [] then []
    else OpendkimFrom(files, rels[..|rels| - 1]) + AsList(OpendkimKey(rels[|rels| - 1], Read(files, OPENDKIM + rels[|rels| - 1])))
  }

  function RspamdFrom(files: Files, rels: seq<string>): seq<DkimKey>
    requires forall rel | rel in rels :: EndsWith(rel, PUBLIC)
  {
    if rels == [] then []
    else RspamdFrom(files, rels[..|rels| - 1]) + AsList(RspamdKey(rels[|rels| - 1], Read(files, RSPAMD + rels[|rels| - 1])))
  }

  function OpendkimKeys(files: Files): seq<DkimKey> { OpendkimFrom(files, ListFiles(files, OPENDKIM, ".txt")) }

  function RspamdKeys(files: Files): seq<DkimKey> { RspamdFrom(files, ListFiles(files, RSPAMD, PUBLIC)) }

  function Domains(keys: seq<DkimKey>): set<string> { set k | k in keys :: k.domain }

  lemma {:induction false} InOpendkimFrom(files: Files, rels: seq<string>, key: DkimKey)
    requires forall rel | rel in rels :: EndsWith(rel, ".txt")
    ensures key in OpendkimFrom(files, rels) <==>
      exists rel :: rel in rels && OpendkimKey(rel, Read(files, OPENDKIM + rel)) == Some(key)
  {
    hide OpendkimKey, EndsWith;
    if rels != [] {
      var n := |rels| - 1;
      InOpendkimFrom(files, rels[..n], key);
      assert forall rel :: rel in rels <==> rel in rels[..n] || rel == rels[n];
      assert rels[n] in rels;
    }
  }

  lemma {:induction false} InRspamdFrom(files: Files, rels: seq<string>, key: DkimKey)
    requires forall rel | rel in rels :: EndsWith(rel, PUBLIC)
    ensures key in RspamdFrom(files, rels) <==>
      exists rel :: rel in rels && RspamdKey(rel, Read(files, RSPAMD + rel)) == Some(key)
  {
    hide RspamdKey, EndsWith;
    if rels != [] {
      var n := |rels| - 1;
      InRspamdFrom(files, rels[..n], key);
      assert forall rel :: rel in rels <==> rel in rels[..n] || rel == rels[n];
      assert rels[n] in rels;
    }
  }

  // ---- Reading a migrated name back ----------------------------------------------------------------

  /** `rsa-<size>-<selector>-<domain>`. */
  function BaseName(size: nat, selector: string, domain: string): string {
    "rsa-" + (PrintNat(size) + "-" + selector + "-" + domain)
  }

  /** The marker already matches right after `rsa`, one place too early. */
  predicate Ambiguous(size: string, selector: string, domain: string) {
    StartsWith(size + "-" + selector + "-" + domain, selector + "-")
  }

  /** For a selector without hyphens this only happens when it equals the printed size. */
  lemma AmbiguousHyphenFree(size: nat, selector: string, domain: string)
    requires '-' !in selector
    ensures Ambiguous(PrintNat(size), selector, domain) <==> selector == PrintNat(size)
  {
    var p := PrintNat(size);
    var s := p + "-" + selector + "-" + domain;
    NoHyphenInSize(size);
    assert s == p + ['-'] + (selector + "-" + domain);
    PartitionAt(p, '-', selector + "-" + domain);
    var t := selector + "-";
    if StartsWith(s, t) {
      assert s == selector + ['-'] + s[|t|..];
      PartitionAt(selector, '-', s[|t|..]);
    }
    if selector == p { assert s[..|t|] == t; }
  }

  /** The marker opens with a hyphen, and the only hyphen before the selector follows `rsa`. */
  lemma NoEarlyMarker(p: string, tail: string, marker: string, j: nat)
    requires '-' !in p && marker != "" && marker[0] == '-' && j < 4 + |p| && j != 3
    ensures !StartsWith(("rsa-" + (p + tail))[j..], marker)
  {
    var s := "rsa-" + (p + tail);
    assert s[j] != '-' by {
      if j > 3 { assert s[j] == p[j - 4] && p[j - 4] in p; }
    }
    StartsWithHead(s[j..], marker);
    assert s[j..][0] == s[j];
  }

  lemma NoHyphenInSize(size: nat)
    ensures '-' !in PrintNat(size)
  {
    var p := PrintNat(size);
    assert forall i | 0 <= i < |p| :: IsDigit(p[i]);
  }

  lemma FindInBase(size: nat, selector: string, domain: string)
    ensures var p := PrintNat(size);
      Find(BaseName(size, selector, domain), "-" + selector + "-") == if Ambiguous(p, selector, domain) then 3 else 4 + |p|
  {
    hide StartsWith;
    var p := PrintNat(size);
    var rest := "-" + selector + "-" + domain;
    var s := "rsa-" + (p + rest);
    var marker := "-" + selector + "-";
    NoHyphenInSize(size);
    assert p + rest == p + "-" + selector + "-" + domain;
    assert s == BaseName(size, selector, domain);
    assert s[3..] == "-" + (p + rest);
    ShiftStart("-", p + rest, selector + "-", marker);
    assert s[4 + |p|..] == marker + domain;
    assert StartsWith(marker + domain, marker) by { StartsWithItself(marker, domain); }
    forall j | 0 <= j < 4 + |p| && j != 3 ensures !StartsWith(s[j..], marker) { NoEarlyMarker(p, rest, marker, j); }
  }

  lemma StartsWithHead(s: string, pattern: string)
    requires s != "" && pattern != "" && s[0] != pattern[0]
    ensures !StartsWith(s, pattern)
  {}

  lemma StartsWithItself(a: string, b: string)
    ensures StartsWith(a + b, a)
  {}

  lemma ShiftStart(head: string, tail: string, pattern: string, whole: string)
    requires whole == head + pattern
    ensures StartsWith(head + tail, whole) <==> StartsWith(tail, pattern)
  {
    var s := head + tail;
    if |pattern| <= |tail| {
      assert s[..|whole|] == head + tail[..|pattern|];
      if s[..|whole|] == whole { assert s[..|whole|][|head|..] == whole[|head|..]; }
    }
  }

  /** MAIN: a record copied under its migrated name is read back as that selector and domain if and only
      if it opens with the selector, the domain is not empty and the marker does not match early. */
  lemma ReadBackIff(size: nat, selector: string, domain: string, raw: string)
    ensures EndsWith(BaseName(size, selector, domain) + PUBLIC, PUBLIC)
    ensures RspamdKey(BaseName(size, selector, domain) + PUBLIC, raw) == Some(MakeKey(domain, selector, raw))
       <==> RecordSelector(raw) == Some(selector) && domain != "" && !Ambiguous(PrintNat(size), selector, domain)
  {
    hide RecordSelector, Ambiguous, Find;
    var s := BaseName(size, selector, domain);
    var rel := s + PUBLIC;
    var marker := "-" + selector + "-";
    assert rel[|rel| - |PUBLIC|..] == PUBLIC && rel[..|rel| - |PUBLIC|] == s;
    FindInBase(size, selector, domain);
    var p := PrintNat(size);
    var tail := p + "-" + selector + "-" + domain;
    assert s == "rsa-" + tail;
    assert s[4 + |p| + |marker|..] == domain;
    assert |s[3 + |marker|..]| == |domain| + |p| + 1;
  }

  /** For instance a selector that is the printed key size is never the one read back. */
  lemma SizeSelectorIsMisread(size: nat, domain: string, raw: string)
    ensures EndsWith(BaseName(size, PrintNat(size), domain) + PUBLIC, PUBLIC)
    ensures RspamdKey(BaseName(size, PrintNat(size), domain) + PUBLIC, raw) != Some(MakeKey(domain, PrintNat(size), raw))
  {
    hide RspamdKey, RecordSelector, BaseName, Ambiguous;
    NoHyphenInSize(size);
    AmbiguousHyphenFree(size, PrintNat(size), domain);
    ReadBackIff(size, PrintNat(size), domain, raw);
  }

  lemma CutInjective(a: string, x: string, b: string, y: string)
    requires '-' !in a && '-' !in b && a + ['-'] + x == b + ['-'] + y
    ensures a == b && x == y
  {
    PartitionAt(a, '-', x);
    PartitionAt(b, '-', y);
  }

  /** Without hyphens in the selectors no two keys get the same name. */
  lemma BaseNameInjective(n: nat, s: string, d: string, n': nat, s': string, d': string)
    requires '-' !in s && '-' !in s'
    requires BaseName(n, s, d) == BaseName(n', s', d')
    ensures n == n' && s == s' && d == d'
  {
    hide IndexOf;
    var p, p' := PrintNat(n), PrintNat(n');
    var a, b := s + ['-'] + d, s' + ['-'] + d';
    assert p + ['-'] + a == p + "-" + s + "-" + d == BaseName(n, s, d)[4..];
    assert p' + ['-'] + b == p' + "-" + s' + "-" + d' == BaseName(n', s', d')[4..];
    NoHyphenInSize(n);
    NoHyphenInSize(n');
    CutInjective(p, a, p', b);
    ParsePrint(n);
    ParsePrint(n');
    CutInjective(s, d, s', d');
  }
}
