/** Which Postfix overrides are accepted, what text they are written as, and how a hand-written line is read. */
module OverrideAnswers {
  import opened Text
  import opened Container
  import opened Overrides

  // ---- Keys ----------------------------------------------------------------------------------------------

  predicate Parameter(s: string) {
    s != "" && forall i | 0 <= i < |s| :: 'A' <= s[i] <= 'Z' || 'a' <= s[i] <= 'z' || '0' <= s[i] <= '9' || s[i] == '_'
  }

  predicate Service(s: string) {
    s != "" && forall i | 0 <= i < |s| ::
      'A' <= s[i] <= 'Z' || 'a' <= s[i] <= 'z' || '0' <= s[i] <= '9' || s[i] == '_' || s[i] == '.' || s[i] == '-'
  }

  predicate ServiceType(s: string) { s != "" && forall i | 0 <= i < |s| :: 'a' <= s[i] <= 'z' }

  /** A service, its type and a parameter, between slashes. */
  ghost predicate Qualified(key: string) {
    exists a, b, c :: Service(a) && ServiceType(b) && Parameter(c) && key == Slashed(a, b, c)
  }

  function Slashed(a: string, b: string, c: string): string { a + ['/'] + (b + ['/'] + c) }

  lemma PartsHaveNoSlash(s: string)
    ensures Service(s) || ServiceType(s) ==> '/' !in s
  {}

  lemma CharsIff(s: string)
    ensures Service(s) <==> s != "" && forall j | 0 <= j < |s| :: WordChar(s[j]) || s[j] == '.' || s[j] == '-'
    ensures Parameter(s) <==> s != "" && forall j | 0 <= j < |s| :: WordChar(s[j])
  {}

  lemma ServiceHead(key: string, a: string)
    requires |a| <= |key| && key[..|a|] == a
    ensures Service(a) <==> a != "" && forall j | 0 <= j < |a| :: WordChar(key[j]) || key[j] == '.' || key[j] == '-'
  {
    hide WordChar;
    CharsIff(a);
    hide Service;
    assert forall j | 0 <= j < |a| :: key[j] == a[j];
  }

  lemma TypeHead(rest: string, b: string)
    requires |b| <= |rest| && rest[..|b|] == b
    ensures ServiceType(b) <==> b != "" && forall j | 0 <= j < |b| :: 'a' <= rest[j] <= 'z'
  {
    assert forall j | 0 <= j < |b| :: rest[j] == b[j];
  }

  lemma ParameterTail(rest: string, n: nat, c: string)
    requires n < |rest| && rest[n + 1..] == c
    ensures Parameter(c) <==> c != "" && forall j | n < j < |rest| :: WordChar(rest[j])
  {
    hide WordChar;
    CharsIff(c);
    hide Parameter;
    assert forall j | 0 <= j < |c| :: c[j] == rest[n + 1 + j];
    assert forall j | n < j < |rest| :: rest[j] == c[j - n - 1];
  }

  /** A key whose first two slashes are cut. */
  lemma MasterKeyParts(a: string, b: string, c: string)
    requires '/' !in a && '/' !in b
    ensures MasterKey(Slashed(a, b, c)) <==> Service(a) && ServiceType(b) && Parameter(c)
  {
    hide WordChar, Service, Parameter, ServiceType;
    var key, rest := Slashed(a, b, c), b + ['/'] + c;
    PartitionAt(a, '/', rest);
    PartitionAt(b, '/', c);
    assert rest[..|b|] == b && key[..|a|] == a;
    ServiceHead(key, a);
    TypeHead(rest, b);
    ParameterTail(rest, |b|, c);
  }

  lemma CutAtSlash(s: string, i: nat)
    requires i == IndexOf(s, '/') < |s|
    ensures '/' !in s[..i]
    ensures s == s[..i] + ['/'] + s[i + 1..]
  {
    hide IndexOf;
    assert s[i] == '/';
    assert forall c | c in s[..i] :: c != '/';
  }

  /** A well-formed key has two slashes. */
  lemma MasterKeyHasSlashes(key: string)
    requires MasterKey(key)
    ensures var i := IndexOf(key, '/'); i < |key| && IndexOf(key[i + 1..], '/') < |key[i + 1..]|
  {
    hide WordChar;
  }

  lemma MasterKeyIff(key: string)
    ensures MasterKey(key) <==> Qualified(key)
  {
    hide MasterKey, Service, ServiceType, Parameter, IndexOf;
    if MasterKey(key) {
      MasterKeyHasSlashes(key);
      var i := IndexOf(key, '/');
      var rest := key[i + 1..];
      var k := IndexOf(rest, '/');
      CutAtSlash(key, i);
      CutAtSlash(rest, k);
      assert key == Slashed(key[..i], rest[..k], rest[k + 1..]);
      MasterKeyParts(key[..i], rest[..k], rest[k + 1..]);
    }
    if a, b, c :| Service(a) && ServiceType(b) && Parameter(c) && key == Slashed(a, b, c) {
      PartsHaveNoSlash(a);
      PartsHaveNoSlash(b);
      MasterKeyParts(a, b, c);
    }
  }

  ghost predicate Accepted(kind: Kind, key: string) { if kind.Main? then Parameter(key) else Qualified(key) }

  lemma AcceptedIff(kind: Kind, key: string)
    ensures KeyOk(kind, key) <==> Accepted(kind, key)
  {
    hide Parameter, Qualified, MasterKey, WordChar;
    CharsIff(key);
    MasterKeyIff(key);
  }

  // ---- Requests --------------------------------------------------------------------------------------------

  lemma {:induction false} TrimmedKeys(os: seq<Override>, key: string)
    ensures key in Keys(TrimmedOverrides(os)) <==> key != "" && exists o :: o in os && Strip(o.key) == key
  {
    hide Strip;
    if os != [] {
      var n := |os| - 1;
      TrimmedKeys(os[..n], key);
      var before := TrimmedOverrides(os[..n]);
      var last := Override(Strip(os[n].key), Strip(os[n].value));
      assert Keys(before + [last]) == Keys(before) + [last.key];
      assert os == os[..n] + [os[n]];
    }
  }

  /** MAIN: a request is accepted if and only if every key in it, stripped, is blank or well formed; what is written,
      below the header, is one line per accepted override in order, with spaces around the equals sign in main.cf
      and without in master.cf; a refused request changes nothing. */
  lemma SetAnswers(kind: Kind, files: Files, os: seq<Override>)
    ensures var (after, r) := SetOverrides(kind, files, os);
      (r.Ok? <==> forall o | o in os :: Strip(o.key) == "" || Accepted(kind, Strip(o.key))) &&
      (!r.Ok? ==> r == BadRequest && after == files) &&
      (r.Ok? ==> after == files[if kind.Main? then "postfix-main.cf" else "postfix-master.cf" :=
        MANAGED_HEADER + Unlines(seq(|r.value|, i requires 0 <= i < |r.value| =>
          r.value[i].key + (if kind.Main? then " = " else "=") + r.value[i].value))])
  {
    hide Strip, KeyOk, Accepted, PutAll, Unlines;
    var ts := TrimmedOverrides(os);
    assert AllKeysOk(kind, ts) <==> forall key | key in Keys(ts) :: Accepted(kind, key) by {
      assert forall i | 0 <= i < |ts| :: Keys(ts)[i] == ts[i].key && ts[i] in ts;
      forall key ensures KeyOk(kind, key) <==> Accepted(kind, key) { AcceptedIff(kind, key); }
    }
    forall key ensures key in Keys(ts) <==> key != "" && exists o :: o in os && Strip(o.key) == key { TrimmedKeys(os, key); }
    if AllKeysOk(kind, ts) {
      var ds := PutAll(ts);
      assert FormatOverrides(kind, ds) == seq(|ds|, i requires 0 <= i < |ds| => ds[i].key + (if kind.Main? then " = " else "=") + ds[i].value);
    }
  }

  // ---- Lines -----------------------------------------------------------------------------------------------

  /** MAIN: a line is an override if and only if it has an equals sign with something visible before the first one;
      its value, stripped, is the rest, further equals signs included. */
  lemma LineReads(key: string, value: string)
    requires '=' !in key
    ensures ParseOverride(key) == None
    ensures ParseOverride(key + ['='] + value) == if Strip(key) == "" then None else Some(Override(Strip(key), Strip(value)))
  {
    hide Strip;
    PartitionAt(key, '=', value);
    NotInIndexOf(key, '=');
  }
}
