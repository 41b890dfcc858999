/** The lines of postfix-accounts.cf, `email|hash`, and of dovecot-quotas.cf, `email:quota`
    (mailbox_service.py). */
module Provisioning {
  import opened Text

  // ---- Accounts ----------------------------------------------------------------------------

  /** Split an account line at its first `|` into the normalised address and the hash. */
  function SplitAccount(line: string): (string, string) { SplitKey(line, '|') }

  function Owner(line: string): string { SplitAccount(line).0 }

  function AccountLine(address: string, hash: string): string { address + "|" + hash }

  /** Every address of the file, in order; lines without an address do not count. */
  function Addresses(lines: seq<string>): seq<string> {
    if lines == [] then []
    else
      var n := |lines| - 1;
      if Owner(lines[n]) == "" then Addresses(lines[..n]) else Addresses(lines[..n]) + [Owner(lines[n])]
  }

  /** The hashes stored for one address, in file order. */
  function HashesOf(lines: seq<string>, address: string): seq<string> {
    if lines == [] then []
    else
      var n := |lines| - 1;
      if Owner(lines[n]) == address then HashesOf(lines[..n], address) + [SplitAccount(lines[n]).1]
      else HashesOf(lines[..n], address)
  }

  function WithoutOwner(lines: seq<string>, address: string): (r: seq<string>)
    ensures |r| <= |lines| && forall l | l in r :: l in lines && Owner(l) != address
  {
    if lines == [] then []
    else
      var n := |lines| - 1;
      if Owner(lines[n]) == address then WithoutOwner(lines[..n], address)
      else WithoutOwner(lines[..n], address) + [lines[n]]
  }

  function WithHash(lines: seq<string>, address: string, hash: string): (r: seq<string>)
    ensures |r| == |lines|
  {
    seq(|lines|, i requires 0 <= i < |lines| =>
      if Owner(lines[i]) == address then AccountLine(address, hash) else lines[i])
  }

  /** What an address read from the file looks like. */
  predicate AddressOk(a: string) { Trimmed(a) && NoBreak(a) && IsLower(a) && '|' !in a }

  /** A password hash: no white space, not empty. */
  predicate HashOk(h: string) { h != "" && NoSpace(h) }

  lemma OwnerOk(line: string)
    requires NoBreak(line)
    ensures AddressOk(Owner(line))
  {
    SplitKeyOk(line, '|');
  }

  /** A printed account line is read back as its address and hash ... */
  lemma AccountLineRoundTrip(address: string, hash: string)
    requires AddressOk(address) && HashOk(hash)
    ensures LineOk(AccountLine(address, hash))
    ensures SplitAccount(AccountLine(address, hash)) == (address, hash)
  {
    NoSpaceTrimmed(hash);
    SeparatedLine(address, '|', hash);
    SplitKeyRoundTrip(address, '|', hash);
  }

  /** ... unless the address holds a `|`: then its owner is the part before the first one. */
  lemma AccountLineCut(address: string, hash: string)
    requires address != "" && Trimmed(address) && NoBreak(address) && '|' in address && HashOk(hash)
    ensures LineOk(AccountLine(address, hash))
    ensures Owner(AccountLine(address, hash)) == Normalise(address[..IndexOf(address, '|')])
  {
    hide Normalise, Strip, LineOk, NoBreak, NoSpace, IndexOf;
    AccountLineIsLine(address, hash);
    NotInIndexOf(address, '|');
    var i := IndexOf(address, '|');
    var tail := address[i + 1..] + "|" + hash;
    assert AccountLine(address, hash) == address[..i] + ['|'] + tail;
    PartitionAt(address[..i], '|', tail);
  }

  lemma AccountLineIsLine(address: string, hash: string)
    requires address != "" && Trimmed(address) && NoBreak(address) && HashOk(hash)
    ensures LineOk(AccountLine(address, hash))
  {
    hide LineOk, NoBreak;
    NoSpaceTrimmed(hash);
    SeparatedLine(address, '|', hash);
  }

  ghost predicate Owns(lines: seq<string>, a: string) { exists l :: l in lines && Owner(l) == a }

  lemma OwnsOneMore(lines: seq<string>, a: string)
    requires lines != []
    ensures var n := |lines| - 1; Owns(lines, a) <==> Owner(lines[n]) == a || Owns(lines[..n], a)
  {
    hide Owner;
    var n := |lines| - 1;
    assert lines == lines[..n] + [lines[n]] && lines[n] in lines;
    if Owns(lines[..n], a) {
      var l :| l in lines[..n] && Owner(l) == a;
      assert l in lines;
    }
  }

  lemma {:induction false} AddressIff(lines: seq<string>, a: string)
    ensures a in Addresses(lines) <==> a != "" && Owns(lines, a)
  {
    if lines != [] {
      hide Owner, Owns;
      AddressIff(lines[..|lines| - 1], a);
      OwnsOneMore(lines, a);
    }
  }

  /** The addresses are the non-empty owners of lines. */
  lemma AddressesAre(lines: seq<string>)
    ensures forall a :: a in Addresses(lines) <==> a != "" && exists l :: l in lines && Owner(l) == a
  {
    hide Owner, Addresses;
    forall a ensures a in Addresses(lines) <==> a != "" && Owns(lines, a) { AddressIff(lines, a); }
    assert forall a :: Owns(lines, a) <==> exists l :: l in lines && Owner(l) == a;
  }

  /** Removing an address drops exactly its lines: the other addresses keep their order ... */
  lemma {:induction false} WithoutOwnerAddresses(lines: seq<string>, address: string)
    ensures Addresses(WithoutOwner(lines, address)) == Without(Addresses(lines), address)
  {
    hide Owner;
    if lines != [] {
      var n := |lines| - 1;
      var rest, before := WithoutOwner(lines[..n], address), Addresses(lines[..n]);
      WithoutOwnerAddresses(lines[..n], address);
      assert (rest + [lines[n]])[..|rest|] == rest;
      assert (before + [Owner(lines[n])])[..|before|] == before;
    }
  }

  /** ... and their hashes. */
  lemma {:induction false} WithoutOwnerHashes(lines: seq<string>, address: string, other: string)
    ensures HashesOf(WithoutOwner(lines, address), other) == if other == address then [] else HashesOf(lines, other)
  {
    hide SplitAccount, Owner;
    if lines != [] {
      var n := |lines| - 1;
      var rest := WithoutOwner(lines[..n], address);
      WithoutOwnerHashes(lines[..n], address, other);
      assert (rest + [lines[n]])[..|rest|] == rest;
    }
  }

  lemma {:induction false} WithoutOwnerLength(lines: seq<string>, address: string)
    ensures |WithoutOwner(lines, address)| == |lines| <==> forall l | l in lines :: Owner(l) != address
  {
    hide Owner;
    if lines != [] {
      var n := |lines| - 1;
      WithoutOwnerLength(lines[..n], address);
      assert forall l :: l in lines <==> l in lines[..n] || l == lines[n];
    }
  }

  /** Setting a password keeps every address where it was and changes the hashes of that one only. */
  lemma {:induction false} WithHashFacts(lines: seq<string>, address: string, hash: string, other: string)
    requires SplitAccount(AccountLine(address, hash)) == (address, hash)
    ensures Addresses(WithHash(lines, address, hash)) == Addresses(lines)
    ensures var hs := HashesOf(lines, other);
      HashesOf(WithHash(lines, address, hash), other) == if other == address then seq(|hs|, _ => hash) else hs
  {
    hide SplitAccount, AccountLine;
    if lines != [] {
      var n := |lines| - 1;
      var after := WithHash(lines, address, hash);
      assert after[..n] == WithHash(lines[..n], address, hash);
      WithHashFacts(lines[..n], address, hash, other);
    }
  }

  // ---- Quotas --------------------------------------------------------------------------------

  /** One quota line: its address and its quota, either of which may be empty. */
  function SplitQuota(line: string): (string, string) { SplitKey(line, ':') }

  /** The last well-formed line of an address wins. */
  function Quotas(lines: seq<string>): map<string, string> {
    if lines == [] then map[]
    else
      var n := |lines| - 1;
      var (email, quota) := SplitQuota(lines[n]);
      if email != "" && quota != "" then Quotas(lines[..n])[email := quota] else Quotas(lines[..n])
  }

  lemma QuotasNext(lines: seq<string>, i: nat)
    requires i < |lines|
    ensures var (email, quota) := SplitQuota(lines[i]);
      Quotas(lines[..i + 1]) == if email != "" && quota != "" then Quotas(lines[..i])[email := quota] else Quotas(lines[..i])
  {
    hide SplitQuota;
    assert lines[..i + 1][..i] == lines[..i];
  }

  function QuotaLines(keys: seq<string>, quotas: map<string, string>): seq<string>
    requires forall k | k in keys :: k in quotas
  {
    if keys == [] then []
    else
      var n := |keys| - 1;
      QuotaLines(keys[..n], quotas) + [keys[n] + ":" + quotas[keys[n]]]
  }

  /** The text written for a quota map: one line per address, sorted. */
  function PrintQuotas(quotas: map<string, string>): string {
    Unlines(QuotaLines(Sorted(quotas.Keys), quotas))
  }

  predicate QuotaOk(quota: string) { quota != "" && Trimmed(quota) && NoBreak(quota) }

  predicate QuotaKeyOk(a: string) { a != "" && Trimmed(a) && NoBreak(a) && IsLower(a) && ':' !in a }

  predicate QuotaMapOk(quotas: map<string, string>) {
    forall k | k in quotas :: QuotaKeyOk(k) && QuotaOk(quotas[k])
  }

  lemma QuotaLineRoundTrip(a: string, quota: string)
    requires QuotaKeyOk(a) && QuotaOk(quota)
    ensures LineOk(a + ":" + quota) && SplitQuota(a + ":" + quota) == (a, quota)
  {
    SeparatedLine(a, ':', quota);
    SplitKeyRoundTrip(a, ':', quota);
  }

  lemma {:induction false} QuotasOk(lines: seq<string>)
    requires forall l | l in lines :: NoBreak(l)
    ensures QuotaMapOk(Quotas(lines))
  {
    hide SplitKey;
    if lines != [] {
      var n := |lines| - 1;
      QuotasOk(lines[..n]);
      assert lines[n] in lines;
      SplitKeyOk(lines[n], ':');
    }
  }

  lemma {:induction false} QuotaLinesParse(keys: seq<string>, quotas: map<string, string>)
    requires forall k | k in keys :: k in quotas
    requires QuotaMapOk(quotas)
    ensures forall l | l in QuotaLines(keys, quotas) :: LineOk(l)
    ensures Quotas(QuotaLines(keys, quotas)) == map k | k in keys :: quotas[k]
  {
    hide SplitQuota;
    if keys != [] {
      var n := |keys| - 1;
      var lines := QuotaLines(keys, quotas);
      assert lines[..n] == QuotaLines(keys[..n], quotas) by { QuotaLinesLength(keys[..n], quotas); }
      QuotaLinesParse(keys[..n], quotas);
      assert keys[n] in keys;
      QuotaLineRoundTrip(keys[n], quotas[keys[n]]);
      QuotaLinesLength(keys, quotas);
      assert forall k :: k in keys <==> k in keys[..n] || k == keys[n];
    }
  }

  lemma {:induction false} QuotaLinesLength(keys: seq<string>, quotas: map<string, string>)
    requires forall k | k in keys :: k in quotas
    ensures |QuotaLines(keys, quotas)| == |keys|
  {
    if keys != [] {
      assert forall k | k in keys[..|keys| - 1] :: k in keys;
      QuotaLinesLength(keys[..|keys| - 1], quotas);
    }
  }

  /** MAIN: a quota map that came from a file survives being written and read back. */
  lemma QuotasRoundTrip(quotas: map<string, string>)
    requires QuotaMapOk(quotas)
    ensures Quotas(ReadLines(PrintQuotas(quotas))) == quotas
  {
    var keys := Sorted(quotas.Keys);
    QuotaLinesParse(keys, quotas);
    ReadUnlines(QuotaLines(keys, quotas));
    assert (map k | k in keys :: quotas[k]) == quotas;
  }
}
