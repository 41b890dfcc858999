/** The SMTP relay store (mailserver_service.py): postfix-relaymap.cf maps a sender to a relay host
    and port or, with no target, excludes it from the global relay; postfix-sasl-password.cf holds
    the credentials. Both are parsed, updated as a dictionary and rewritten wholesale. */
module Relay {
  import opened Text
  import opened Container

  const RELAYMAP := "postfix-relaymap.cf"
  const SASL := "postfix-sasl-password.cf"
  const DEFAULT_PORT: nat := 587

  datatype Target = Target(host: string, port: nat)

  datatype Credential = Credential(username: string, password: string)

  type RelayMap = map<string, Option<Target>>

  type Credentials = map<string, Credential>

  // ---- Reading --------------------------------------------------------------------------------

  function LastIndexOf(s: string, c: char): (i: int)
    ensures -1 <= i < |s| && (i >= 0 ==> s[i] == c)
    ensures forall j | i < j < |s| :: s[j] != c
  {
    if s == "" then -1 else if s[|s| - 1] == c then |s| - 1 else LastIndexOf(s[..|s| - 1], c)
  }

  /** `s.lstrip(":")`. */
  function DropColons(s: string): string {
    if s != "" && s[0] == ':' then DropColons(s[1..]) else s
  }

  /** `int(s) if s.isdigit() else default`. */
  function PortOf(s: string): nat {
    if s != "" && AllDigits(s) then ParseNat(s) else DEFAULT_PORT
  }

  /** A relay target `[host]:port`, `host:port` or `host`. */
  function ParseTarget(raw: string): Target {
    var token := Strip(raw);
    if token != "" && token[0] == '[' then
      var inner := token[1..];
      var i := IndexOf(inner, ']');
      Target(Strip(inner[..i]), PortOf(DropColons(if i == |inner| then "" else inner[i + 1..])))
    else
      var i := LastIndexOf(token, ':');
      if i >= 0 then Target(Strip(token[..i]), PortOf(token[i + 1..])) else Target(token, DEFAULT_PORT)
  }

  /** What one line of the relay map says of its sender, if anything. */
  function ParseRelayLine(line: string): (r: (string, Option<Option<Target>>))
    requires LineOk(line)
  {
    assert LStrip(line) == line;
    var parts := SplitAll(line);
    if |parts| < 2 then (Lower(parts[0]), Some(None))
    else
      var t := ParseTarget(parts[1]);
      (Lower(parts[0]), if t.host != "" then Some(Some(t)) else None)
  }

  function ParseRelaymap(lines: seq<string>): RelayMap
    requires forall l | l in lines :: LineOk(l)
  {
    if lines == [] then map[]
    else
      var n := |lines| - 1;
      var (sender, entry) := ParseRelayLine(lines[n]);
      if entry.Some? then ParseRelaymap(lines[..n])[sender := entry.value] else ParseRelaymap(lines[..n])
  }

  /** `username, _, password = s.partition(":")`, both stripped. */
  function SplitCredential(s: string): Credential {
    var i := IndexOf(s, ':');
    Credential(Strip(s[..i]), if i == |s| then "" else Strip(s[i + 1..]))
  }

  function ParseSasl(lines: seq<string>): Credentials
    requires forall l | l in lines :: LineOk(l)
  {
    if lines == [] then map[]
    else
      var n := |lines| - 1;
      var parts := SplitMax(lines[n], 1);
      if |parts| < 2 then ParseSasl(lines[..n])
      else ParseSasl(lines[..n])[Lower(parts[0]) := SplitCredential(parts[1])]
  }

  lemma SaslNext(lines: seq<string>, i: nat)
    requires i < |lines| && forall l | l in lines :: LineOk(l)
    ensures var parts, before := SplitMax(lines[i], 1), ParseSasl(lines[..i]);
      ParseSasl(lines[..i + 1]) == if |parts| < 2 then before else before[Lower(parts[0]) := SplitCredential(parts[1])]
  {
    hide LineOk, SplitMax, SplitCredential, Lower;
    assert lines[..i + 1][..i] == lines[..i];
  }

  lemma SaslNone(lines: seq<string>)
    requires lines == []
    ensures ParseSasl(lines) == map[]
  {}

  // ---- Writing ----------------------------------------------------------------------------------

  function TargetText(t: Target): string { "[" + t.host + "]:" + PrintNat(t.port) }

  function RelayLine(sender: string, target: Option<Target>): string {
    if target.None? then sender else sender + "\t" + TargetText(target.value)
  }

  function RelayLines(keys: seq<string>, relays: RelayMap): (r: seq<string>)
    requires forall k | k in keys :: k in relays
    ensures |r| == |keys|
  {
    seq(|keys|, i requires 0 <= i < |keys| => assert keys[i] in keys; RelayLine(keys[i], relays[keys[i]]))
  }

  function PrintRelaymap(relays: RelayMap): string { Managed(RelayLines(Sorted(relays.Keys), relays)) }

  function SaslLine(sender: string, c: Credential): string { sender + "\t" + (c.username + ":" + c.password) }

  /** Entries without a username are dropped. */
  function SaslLines(keys: seq<string>, creds: Credentials): seq<string>
    requires forall k | k in keys :: k in creds
  {
    if keys == [] then []
    else
      var n := |keys| - 1;
      var before := SaslLines(keys[..n], creds);
      if creds[keys[n]].username == "" then before else before + [SaslLine(keys[n], creds[keys[n]])]
  }

  function PrintSasl(creds: Credentials): string { Managed(SaslLines(Sorted(creds.Keys), creds)) }

  // ---- What reading yields ------------------------------------------------------------------------

  /** A sender key that survives: one lower-case token that does not start a comment. */
  predicate SenderOk(s: string) { s != "" && NoSpace(s) && IsLower(s) && s[0] != '#' }

  predicate Token(h: string) { h != "" && NoSpace(h) }

  predicate HostOk(h: string) { Token(h) && ']' !in h }

  predicate RelaysRead(relays: RelayMap) {
    forall k | k in relays :: SenderOk(k) && (relays[k].Some? ==> Token(relays[k].value.host))
  }

  /** No host holds the bracket that ends it in the file. */
  predicate HostsClean(relays: RelayMap) {
    forall k | k in relays :: relays[k].Some? ==> ']' !in relays[k].value.host
  }

  predicate CredentialRead(c: Credential) {
    Trimmed(c.username) && NoBreak(c.username) && ':' !in c.username && Trimmed(c.password) && NoBreak(c.password)
  }

  predicate CredentialsRead(creds: Credentials) {
    forall k | k in creds :: SenderOk(k) && CredentialRead(creds[k])
  }

  lemma FirstTokenIsSender(line: string)
    requires LineOk(line) && !IsComment(line)
    ensures SplitAll(line) != [] && SenderOk(Lower(SplitAll(line)[0]))
    ensures SplitMax(line, 1) != [] && SplitMax(line, 1)[0] == SplitAll(line)[0]
  {
    assert LStrip(line) == line;
    var tok := line[..FirstSpace(line)];
    assert SplitAll(line)[0] == tok && SplitMax(line, 1)[0] == tok;
    LowerFacts(tok);
    assert NoSpace(tok) && tok != "" && tok[0] == line[0];
  }

  lemma ParseTargetRead(raw: string)
    requires NoSpace(raw)
    ensures NoSpace(ParseTarget(raw).host)
  {
    NoSpaceTrimmed(raw);
    StripTrimmed(raw);
  }

  lemma {:induction false} RelaymapRead(lines: seq<string>)
    requires forall l | l in lines :: LineOk(l) && !IsComment(l)
    ensures RelaysRead(ParseRelaymap(lines))
  {
    hide SenderOk, ParseTarget, LineOk, SplitAll, IsComment, NoSpace;
    if lines != [] {
      var n := |lines| - 1;
      RelaymapRead(lines[..n]);
      FirstTokenIsSender(lines[n]);
      var parts := SplitAll(lines[n]);
      if |parts| >= 2 { assert parts[1] in parts; ParseTargetRead(parts[1]); }
    }
  }

  lemma SplitCredentialRead(s: string)
    requires NoBreak(s)
    ensures CredentialRead(SplitCredential(s))
  {
    var i := IndexOf(s, ':');
    var u := Strip(s[..i]);
    assert forall c | c in u :: c in s[..i];
    if i < |s| { assert NoBreak(s[i + 1..]); }
  }

  lemma SecondPiece(line: string)
    requires LineOk(line)
    ensures |SplitMax(line, 1)| == 2 ==> NoBreak(SplitMax(line, 1)[1])
  {
    assert LStrip(line) == line;
    var tail := line[FirstSpace(line)..];
    assert NoBreak(LStrip(tail));
  }

  lemma {:induction false} SaslRead(lines: seq<string>)
    requires forall l | l in lines :: LineOk(l) && !IsComment(l)
    ensures CredentialsRead(ParseSasl(lines))
  {
    hide SenderOk, SplitCredential, LineOk, SplitAll, SplitMax, IsComment, CredentialRead, NoBreak;
    if lines != [] {
      var n := |lines| - 1;
      SaslRead(lines[..n]);
      FirstTokenIsSender(lines[n]);
      SecondPiece(lines[n]);
      var parts := SplitMax(lines[n], 1);
      if |parts| >= 2 { SplitCredentialRead(parts[1]); }
    }
  }

  // ---- Writing and reading back --------------------------------------------------------------------

  lemma TargetTextToken(t: Target)
    requires Token(t.host)
    ensures Token(TargetText(t))
  {
    var text, p := TargetText(t), PrintNat(t.port);
    assert forall i | 0 <= i < |p| :: IsDigit(p[i]);
    assert forall i | 0 <= i < |text| :: text[i] == if i == 0 then '[' else if i <= |t.host| then t.host[i - 1]
      else if i == |t.host| + 1 then ']' else if i == |t.host| + 2 then ':' else p[i - |t.host| - 3];
  }

  lemma PortTextParse(port: nat)
    ensures PortOf(DropColons(":" + PrintNat(port))) == port
  {
    var p := PrintNat(port);
    ParsePrint(port);
    assert IsDigit(p[0]);
    assert DropColons(p) == p;
    assert (":" + p)[1..] == p;
  }

  lemma ParseBracketed(head: string, tail: string)
    requires ']' !in head && NoSpace("[" + (head + [']'] + tail))
    ensures ParseTarget("[" + (head + [']'] + tail)) == Target(head, PortOf(DropColons(tail)))
  {
    hide PortOf, DropColons;
    var inner := head + [']'] + tail;
    var text := "[" + inner;
    NoSpaceTrimmed(text);
    StripTrimmed(text);
    assert text[1..] == inner;
    PartitionAt(head, ']', tail);
    assert NoSpace(head) by { assert forall i | 0 <= i < |head| :: head[i] == text[i + 1]; }
    NoSpaceTrimmed(head);
    StripTrimmed(head);
  }

  /** A bracketed target is read back up to the first closing bracket. */
  lemma TargetTextParse(t: Target)
    requires Token(t.host)
    ensures ParseTarget(TargetText(t)) == t <==> ']' !in t.host
    ensures ParseTarget(TargetText(t)).host == t.host[..IndexOf(t.host, ']')]
  {
    hide PortOf, DropColons, ParseTarget;
    var p := PrintNat(t.port);
    TargetTextToken(t);
    var i := IndexOf(t.host, ']');
    NotInIndexOf(t.host, ']');
    var head := t.host[..i];
    var tail := if i == |t.host| then ":" + p else t.host[i + 1..] + "]:" + p;
    assert TargetText(t) == "[" + (head + [']'] + tail);
    assert ']' !in head;
    ParseBracketed(head, tail);
    PortTextParse(t.port);
    assert i == |t.host| ==> head == t.host;
  }

  lemma TwoTokens(a: string, b: string)
    requires a != "" && NoSpace(a) && b != "" && NoSpace(b)
    ensures LineOk(a + "\t" + b) && SplitAll(a + "\t" + b) == [a, b]
  {
    hide SplitAll;
    NoSpaceTrimmed(a);
    NoSpaceTrimmed(b);
    SeparatedLine(a, '\t', b);
    SplitAllToken(a, '\t', b);
    SplitOne(b);
  }

  lemma RelayLineParse(sender: string, target: Option<Target>)
    requires SenderOk(sender) && (target.Some? ==> Token(target.value.host))
    ensures var l := RelayLine(sender, target);
      LineOk(l) && !IsComment(l) && ParseRelayLine(l).0 == sender &&
      (ParseRelayLine(l).1 == Some(target) <==> target.Some? ==> ']' !in target.value.host)
  {
    hide ParseTarget, TargetText, SplitAll, IsSpace, Trimmed, NoBreak, NoSpace;
    if target.None? {
      NoSpaceTrimmed(sender);
      SplitOne(sender);
    } else {
      var text := TargetText(target.value);
      TargetTextParse(target.value);
      TargetTextToken(target.value);
      TwoTokens(sender, text);
    }
  }

  /** What rewriting makes of an entry. */
  function Reread(sender: string, target: Option<Target>): Option<Option<Target>>
    requires LineOk(RelayLine(sender, target))
  {
    ParseRelayLine(RelayLine(sender, target)).1
  }

  lemma {:induction false} RelayLinesParse(keys: seq<string>, relays: RelayMap)
    requires (forall k | k in keys :: k in relays) && RelaysRead(relays)
    ensures forall l | l in RelayLines(keys, relays) :: LineOk(l) && !IsComment(l)
    ensures forall k | k in keys :: LineOk(RelayLine(k, relays[k]))
    ensures ParseRelaymap(RelayLines(keys, relays))
         == map k | k in keys && Reread(k, relays[k]).Some? :: Reread(k, relays[k]).value
  {
    hide RelayLine, ParseRelayLine, LineOk, IsComment, SenderOk;
    forall k | k in keys ensures LineOk(RelayLine(k, relays[k])) && !IsComment(RelayLine(k, relays[k])) {
      RelayLineParse(k, relays[k]);
    }
    if keys != [] {
      var n := |keys| - 1;
      RelayLinesParse(keys[..n], relays);
      assert RelayLines(keys, relays)[..n] == RelayLines(keys[..n], relays);
      assert keys[n] in keys;
      RelayLineParse(keys[n], relays[keys[n]]);
      assert forall k :: k in keys <==> k in keys[..n] || k == keys[n];
    }
  }

  /** MAIN: a relay map that came from a file survives being rewritten if and only if none of its hosts
      holds a closing bracket (a hand-written `host]x:25` does). */
  lemma RelaymapRoundTrip(relays: RelayMap)
    requires RelaysRead(relays)
    ensures ParseRelaymap(ReadConfigLines(PrintRelaymap(relays))) == relays <==> HostsClean(relays)
  {
    hide RelayLine, ParseRelayLine, LineOk, IsComment, SenderOk, ParseRelaymap, Managed, ReadConfigLines;
    var keys := Sorted(relays.Keys);
    RelayLinesParse(keys, relays);
    ReadManagedLines(RelayLines(keys, relays));
    var again := ParseRelaymap(RelayLines(keys, relays));
    forall k | k in relays
      ensures LineOk(RelayLine(k, relays[k]))
      ensures Reread(k, relays[k]) == Some(relays[k]) <==> relays[k].Some? ==> ']' !in relays[k].value.host {
      RelayLineParse(k, relays[k]);
    }
    if HostsClean(relays) {
      assert again == relays;
    } else {
      var k :| k in relays && relays[k].Some? && ']' in relays[k].value.host;
      assert k in again ==> again[k] != relays[k];
    }
  }

  // ---- Credentials, written and read back -----------------------------------------------------------

  /** The username is trimmed and, like the password up to its last visible character, fits on one line. */
  predicate CredentialOneLine(c: Credential) {
    Trimmed(c.username) && NoBreak(c.username) && NoBreak(RStrip(c.password))
  }

  /** How a stored credential is read back. */
  function RereadCredential(c: Credential): Credential { SplitCredential(c.username + ":" + c.password) }

  lemma RereadCredentialIff(c: Credential)
    requires Trimmed(c.username)
    ensures RereadCredential(c) == Credential(c.username, Strip(c.password)) <==> ':' !in c.username
  {
    var s := c.username + ":" + c.password;
    if ':' !in c.username {
      PartitionAt(c.username, ':', c.password);
      StripTrimmed(c.username);
    } else {
      var i := IndexOf(s, ':');
      var u := Strip(s[..i]);
      assert forall d | d in u :: d in s[..i];
      assert ':' !in u;
    }
  }

  /** Trailing white space does not matter to a credential that has its colon. */
  lemma SplitCredentialTail(s: string, ws: string)
    requires ':' in s && AllSpace(ws)
    ensures SplitCredential(s + ws) == SplitCredential(s)
  {
    NotInIndexOf(s, ':');
    var i := IndexOf(s, ':');
    assert s + ws == s[..i] + [':'] + (s[i + 1..] + ws);
    assert ':' !in s[..i];
    PartitionAt(s[..i], ':', s[i + 1..] + ws);
    StripDropsTail(s[i + 1..], ws);
    hide Strip;
  }

  /** What a written entry yields when it is read back. */
  function Yield(sender: string, c: Credential): Credentials { ParseSasl(ReadConfigLines(SaslLine(sender, c))) }

  /** ... and what all of them yield, later entries winning. */
  function YieldAll(keys: seq<string>, creds: Credentials): Credentials
    requires forall k | k in keys :: k in creds
  {
    if keys == [] then map[]
    else
      var n := |keys| - 1;
      var before := YieldAll(keys[..n], creds);
      if creds[keys[n]].username == "" then before else before + Yield(keys[n], creds[keys[n]])
  }

  lemma {:induction false} ParseSaslAppend(a: seq<string>, b: seq<string>)
    requires (forall l | l in a :: LineOk(l)) && forall l | l in b :: LineOk(l)
    ensures ParseSasl(a + b) == ParseSasl(a) + ParseSasl(b)
  {
    hide LineOk, SplitMax, SplitCredential, Lower;
    if b == [] {
      assert a + b == a;
    } else {
      var n := |b| - 1;
      assert (a + b)[..|a + b| - 1] == a + b[..n];
      ParseSaslAppend(a, b[..n]);
    }
  }

  lemma {:induction false} SaslYields(keys: seq<string>, creds: Credentials)
    requires forall k | k in keys :: k in creds
    ensures ParseSasl(Pieces(SaslLines(keys, creds))) == YieldAll(keys, creds)
  {
    hide ParseSasl, ReadConfigLines, SaslLine, Pieces, LineOk;
    if keys == [] {
      NoPieces();
      SaslNone([]);
    } else {
      var n := |keys| - 1;
      var before := SaslLines(keys[..n], creds);
      SaslYields(keys[..n], creds);
      if creds[keys[n]].username != "" {
        var line := SaslLine(keys[n], creds[keys[n]]);
        PiecesAppend(before, line);
        ParseSaslAppend(Pieces(before), ReadConfigLines(line));
      }
    }
  }

  lemma NoPieces()
    ensures Pieces([]) == []
  {}

  /** Whatever the credentials hold, this is what the file they are written to yields. */
  lemma PrintedSaslYields(creds: Credentials)
    ensures ParseSasl(ReadConfigLines(PrintSasl(creds))) == YieldAll(Sorted(creds.Keys), creds)
  {
    hide ParseSasl, ReadConfigLines, Managed, Pieces, SaslLines;
    var keys := Sorted(creds.Keys);
    ReadManaged(SaslLines(keys, creds));
    ReadEntries(SaslLines(keys, creds));
    SaslYields(keys, creds);
  }

  /** A credential that fits on one line yields itself, reread. */
  lemma YieldOneLine(sender: string, c: Credential)
    requires SenderOk(sender) && CredentialOneLine(c) && c.username != ""
    ensures Yield(sender, c) == map[sender := RereadCredential(c)]
  {
    hide Strip, SplitMax, ReadLines, RereadCredential, SplitCredential, SenderOk, LineOk;
    var q, ws := SaslLineTrimmed(sender, c);
    var l := sender + ['\t'] + (c.username + ":" + q);
    SaslTokens(sender, c.username, q);
    ReadTail("", l, ws);
    assert SaslLine(sender, c) == "" + l + ws;
    DropCommentsIdentity([l]);
    SenderIsLower(sender);
    ParseSaslOne(l);
  }

  lemma ParseSaslOne(l: string)
    requires LineOk(l)
    ensures ParseSasl([l]) == var parts := SplitMax(l, 1); if |parts| < 2 then map[] else map[Lower(parts[0]) := SplitCredential(parts[1])]
  {
    hide LineOk, SplitMax, SplitCredential, Lower;
    assert [l][..0] == [];
  }

  /** A written line is the line without the trailing white space of the password, then that. */
  lemma SaslLineTrimmed(sender: string, c: Credential) returns (q: string, ws: string)
    requires CredentialOneLine(c)
    ensures NoBreak(q) && (q == "" || !IsSpace(q[|q| - 1])) && AllSpace(ws) && c.password == q + ws
    ensures SplitCredential(c.username + ":" + q) == RereadCredential(c)
  {
    hide IsSpace, IsBreak, SplitCredential;
    var n := EndNonSpace(c.password);
    q, ws := c.password[..n], c.password[n..];
    var body := c.username + ":" + q;
    assert body + ws == c.username + ":" + c.password;
    assert ':' in body by { assert body[|c.username|] == ':'; }
    SplitCredentialTail(body, ws);
  }

  lemma SaslTokens(sender: string, u: string, q: string)
    requires SenderOk(sender) && u != "" && Trimmed(u) && NoBreak(u) && NoBreak(q) && (q == "" || !IsSpace(q[|q| - 1]))
    ensures var l := sender + ['\t'] + (u + ":" + q);
      LineOk(l) && !IsComment(l) && SplitMax(l, 1) == [sender, u + ":" + q]
  {
    var body := u + ":" + q;
    NoSpaceTrimmed(sender);
    SaslBody(u, q);
    SeparatedLine(sender, '\t', body);
    SplitMaxToken(sender, '\t', body, 1);
    SplitMaxWhole(body);
    hide SplitMax;
  }

  lemma SaslBody(u: string, q: string)
    requires u != "" && Trimmed(u) && NoBreak(u) && NoBreak(q) && (q == "" || !IsSpace(q[|q| - 1]))
    ensures var b := u + ":" + q; b != "" && !IsSpace(b[0]) && !IsSpace(b[|b| - 1]) && NoBreak(b)
  {
    var b := u + ":" + q;
    assert b[0] == u[0] && b[|b| - 1] == if q == "" then ':' else q[|q| - 1];
    assert forall i | 0 <= i < |b| :: b[i] == if i < |u| then u[i] else if i == |u| then ':' else q[i - |u| - 1];
  }

  predicate CredentialsWritable(creds: Credentials) {
    forall k | k in creds :: SenderOk(k) && CredentialOneLine(creds[k])
  }

  lemma {:induction false} YieldAllOneLine(keys: seq<string>, creds: Credentials)
    requires (forall k | k in keys :: k in creds) && CredentialsWritable(creds)
    ensures YieldAll(keys, creds) == map k | k in keys && creds[k].username != "" :: RereadCredential(creds[k])
  {
    hide Yield, RereadCredential, SenderOk, CredentialOneLine;
    if keys != [] {
      var n := |keys| - 1;
      YieldAllOneLine(keys[..n], creds);
      assert keys == keys[..n] + [keys[n]] && keys[n] in keys;
      if creds[keys[n]].username != "" { YieldOneLine(keys[n], creds[keys[n]]); }
    }
  }

  lemma SenderIsLower(s: string)
    requires SenderOk(s)
    ensures Lower(s) == s
  {}

  /** MAIN: one-line credentials are read back with the username cut at its first colon and the
      password stripped; entries without a username are gone. */
  lemma SaslRoundTrip(creds: Credentials)
    requires CredentialsWritable(creds)
    ensures ParseSasl(ReadConfigLines(PrintSasl(creds)))
         == map k | k in creds && creds[k].username != "" :: RereadCredential(creds[k])
  {
    hide RereadCredential, SenderOk, ParseSasl, Managed, ReadConfigLines, CredentialOneLine, YieldAll;
    PrintedSaslYields(creds);
    YieldAllOneLine(Sorted(creds.Keys), creds);
  }

  // ---- Credentials that span several lines ------------------------------------------------------------

  /** The lines after the first that a username and a password put into the file. */
  function Injected(c: Credential): (lines: seq<string>)
    ensures forall l | l in lines :: LineOk(l) && !IsComment(l)
  {
    var text := c.username + ":" + c.password;
    var i := FirstBreak(text);
    if i == |text| then [] else ReadConfigLines(text[AfterBreak(text, i)..])
  }

  /** The senders that lines name: the first token of each that has a second one. */
  function Senders(lines: seq<string>): set<string> {
    set l | l in lines && |SplitMax(l, 1)| >= 2 :: Lower(SplitMax(l, 1)[0])
  }

  lemma {:induction false} ParseSaslKeys(lines: seq<string>)
    requires forall l | l in lines :: LineOk(l)
    ensures ParseSasl(lines).Keys == Senders(lines)
  {
    hide LineOk, SplitMax, SplitCredential, Lower;
    if lines != [] {
      var n := |lines| - 1;
      ParseSaslKeys(lines[..n]);
      assert lines == lines[..n] + [lines[n]];
    }
  }

  /** What the first line of an entry holds after its sender. */
  function FirstBody(c: Credential): string {
    var text := c.username + ":" + c.password;
    RStrip(text[..FirstBreak(text)])
  }

  lemma FirstBodyFacts(c: Credential)
    requires c.username != "" && Trimmed(c.username)
    ensures var b := FirstBody(c); b != "" && b[0] == c.username[0] && !IsSpace(b[0]) && !IsSpace(b[|b| - 1]) && NoBreak(b)
  {
    var text := c.username + ":" + c.password;
    var first := text[..FirstBreak(text)];
    SpaceIfBreak();
    assert text[0] == c.username[0];
    assert first[0] == text[0];
    assert EndNonSpace(first) > 0;
  }

  lemma SpaceIfBreak()
    ensures forall c | IsBreak(c) :: IsSpace(c)
  {}

  /** MAIN: whatever username and password hold, the entry is read as one line for its sender, then as the
      lines they inject. */
  lemma EntryIsRead(sender: string, c: Credential)
    requires SenderOk(sender) && c.username != "" && Trimmed(c.username)
    ensures ReadConfigLines(SaslLine(sender, c)) == [sender + ['\t'] + FirstBody(c)] + Injected(c)
    ensures LineOk(sender + ['\t'] + FirstBody(c)) && SplitMax(sender + ['\t'] + FirstBody(c), 1) == [sender, FirstBody(c)]
  {
    hide ReadLines, SplitMax, IsSpace, IsBreak, NonBlank, NoSpace, FirstBody, AfterBreak, Trimmed;
    var text := c.username + ":" + c.password;
    var i, m := FirstBreak(text), |sender| + 1;
    var s, l := SaslLine(sender, c), sender + ['\t'] + FirstBody(c);
    FirstBodyFacts(c);
    SenderLine(sender, FirstBody(c));
    var ws := FirstTail(sender, c);
    assert s == sender + ['\t'] + text;
    assert NoBreak(s[..m + i]) && s[..m + i] == "" + l + ws by { NoTabBreak(); }
    LinePadded("", l, ws);
    if i == |text| {
      assert s[..m + i] == s;
      ReadOneLine(s);
      DropCommentsIdentity([l]);
    } else {
      SenderHead(sender);
      BreakShift(sender + ['\t'], text, s);
      ReadCut(s, m + i);
      DropCommentsAppend([l], ReadLines(text[AfterBreak(text, i)..]));
      DropCommentsIdentity([l]);
    }
  }

  lemma SenderHead(sender: string)
    requires SenderOk(sender)
    ensures NoBreak(sender + ['\t'])
  {
    NoSpaceTrimmed(sender);
  }

  lemma NoTabBreak()
    ensures !IsBreak('\t') && IsSpace('\t')
  {}

  lemma SenderLine(sender: string, body: string)
    requires SenderOk(sender) && body != "" && !IsSpace(body[0]) && !IsSpace(body[|body| - 1]) && NoBreak(body)
    ensures var l := sender + ['\t'] + body; LineOk(l) && !IsComment(l) && SplitMax(l, 1) == [sender, body] && NoBreak(sender)
  {
    hide SplitMax;
    NoSpaceTrimmed(sender);
    NoTabBreak();
    SeparatedLine(sender, '\t', body);
    SplitMaxToken(sender, '\t', body, 1);
    SplitMaxWhole(body);
  }

  /** The white space that ends the first line. */
  lemma FirstTail(sender: string, c: Credential) returns (ws: string)
    ensures var text := c.username + ":" + c.password;
      AllSpace(ws) && text[..FirstBreak(text)] == FirstBody(c) + ws
  {
    var text := c.username + ":" + c.password;
    var first := text[..FirstBreak(text)];
    ws := first[EndNonSpace(first)..];
  }

  lemma EntryYields(sender: string, c: Credential)
    requires SenderOk(sender) && c.username != "" && Trimmed(c.username)
    ensures Yield(sender, c) == map[sender := SplitCredential(FirstBody(c))] + ParseSasl(Injected(c))
  {
    hide ReadConfigLines, SplitMax, SplitCredential, LineOk, FirstBody, SenderOk, SaslLine, Injected;
    EntryIsRead(sender, c);
    var l := sender + ['\t'] + FirstBody(c);
    ParseSaslAppend([l], Injected(c));
    ParseSaslOne(l);
    SenderIsLower(sender);
  }

  /** All entries but one came from a file: they yield themselves, and the one yields what it injects. */
  lemma {:induction false} YieldAllButOne(keys: seq<string>, creds: Credentials, key: string)
    requires (forall k | k in keys :: k in creds) && NoRepeat(keys)
    requires forall k | k in keys && k != key :: SenderOk(k) && CredentialOneLine(creds[k])
    requires key in keys ==> creds[key].username != ""
    ensures YieldAll(keys, creds).Keys == (set k | k in keys && k != key && creds[k].username != "") +
      if key in keys then Yield(key, creds[key]).Keys else {}
    ensures key in keys && key in Yield(key, creds[key]) ==>
      key in YieldAll(keys, creds) && YieldAll(keys, creds)[key] == Yield(key, creds[key])[key]
  {
    hide Yield, RereadCredential, SenderOk, CredentialOneLine;
    if keys != [] {
      var n := |keys| - 1;
      YieldAllButOne(keys[..n], creds, key);
      assert keys == keys[..n] + [keys[n]] && keys[n] in keys;
      assert keys[n] !in keys[..n];
      if keys[n] != key && creds[keys[n]].username != "" { YieldOneLine(keys[n], creds[keys[n]]); }
    }
  }

  // ---- Line breaks at the ends of a password ------------------------------------------------------------

  /** The password ends where its last visible character does. */
  lemma RStripParts(p: string, pre: string, post: string)
    requires p == pre + Strip(p) + post && AllSpace(pre) && AllSpace(post)
    ensures RStrip(p) == if Strip(p) == "" then "" else pre + Strip(p)
  {
    hide IsSpace;
    var core, n := Strip(p), EndNonSpace(p);
    var m := |pre| + |core|;
    assert forall j | m <= j < |p| :: p[j] == post[j - m];
    if core == "" {
      assert forall j | 0 <= j < m :: p[j] == pre[j];
      assert p[..0] == "";
    } else {
      assert p[m - 1] == core[|core| - 1];
      assert p[..m] == pre + core;
    }
  }

  lemma ShorterPassword(line: string)
    requires LineOk(line) && |SplitMax(line, 1)| == 2
    ensures |SplitCredential(SplitMax(line, 1)[1]).password| < |line|
  {
    assert LStrip(line) == line;
    var tail := LStrip(line[FirstSpace(line)..]);
    assert SplitMax(line, 1)[1] == tail;
    var i := IndexOf(tail, ':');
    if i < |tail| { StripLength(tail[i + 1..]); }
  }

  lemma StripLength(s: string)
    ensures |Strip(s)| <= |s|
  {}

  /** The first line of an entry whose password starts with a break holds an empty password ... */
  lemma EmptyFirstPassword(u: string, ws: string)
    requires ':' !in u && AllSpace(ws)
    ensures SplitCredential(RStrip(u + ":" + ws)).password == ""
  {
    hide IsSpace;
    var first := u + ":" + ws;
    var n := EndNonSpace(first);
    assert !IsSpace(':') by { ColonIsNoSpace(); }
    assert first[|u|] == ':' && n > |u|;
    assert forall j | |u| < j < |first| :: first[j] == ws[j - |u| - 1];
    assert n == |u| + 1;
    assert RStrip(first) == u + [':'] + "";
    PartitionAt(u, ':', "");
    StripTrimmed("");
  }

  lemma ColonIsNoSpace()
    ensures !IsSpace(':')
  {}

  /** With a one-line username, what is injected follows the first break of the password. */
  lemma InjectedByPassword(u: string, p: string)
    requires NoBreak(u)
    ensures var c, i := Credential(u, p), FirstBreak(p);
      FirstBody(c) == RStrip(u + ":" + p[..i]) &&
      Injected(c) == if i == |p| then [] else ReadConfigLines(p[AfterBreak(p, i)..])
  {
    hide IsBreak, NoBreak, ReadConfigLines, AfterBreak, RStrip, LineOk, IsComment;
    OneLineHead(u);
    BreakShift(u + ":", p, u + ":" + p);
  }

  lemma OneLineHead(u: string)
    requires NoBreak(u)
    ensures NoBreak(u + ":")
  {
    ColonIsNoBreak();
    hide IsBreak;
  }

  /** ... and the rest injects at most its visible characters, as one line. */
  lemma InjectedAfterBreak(u: string, pre: string, core: string, post: string)
    requires NoBreak(u) && AllSpace(pre) && !NoBreak(pre) && AllSpace(post) && LineOk(core)
    ensures var c := Credential(u, pre + core + post);
      Injected(c) == (if IsComment(core) then [] else [core]) && FirstBody(c) == RStrip(u + ":" + pre[..FirstBreak(pre)])
  {
    hide Injected, FirstBody, IsBreak, IsSpace, NoBreak, ReadLines, LineOk, AfterBreak, RStrip, IsComment, DropComments, FirstBreak;
    var p, i := pre + core + post, FirstBreak(pre);
    assert p == pre + (core + post);
    BreakWithin(pre, core + post);
    InjectedByPassword(u, p);
    NextAfter(p, i);
    NotNewline(core);
    assert i + 1 == |pre| ==> p[i + 1] == core[0];
    var next := AfterBreak(p, i);
    assert p[next..] == pre[next..] + core + post && p[..i] == pre[..i];
    ReadPadded(pre[next..], core, post);
    OneOrNone(core);
  }

  lemma ColonIsNoBreak()
    ensures !IsBreak(':')
  {}

  lemma BreakPosition(head: string, s: string, t: string)
    requires NoBreak(head) && t == head + s
    ensures FirstBreak(t) == |head| + FirstBreak(s)
  {
    hide IsBreak;
    assert forall j | 0 <= j < |head| :: t[j] == head[j];
    assert forall j | |head| <= j < |t| :: t[j] == s[j - |head|];
    assert FirstBreak(s) < |s| ==> t[|head| + FirstBreak(s)] == s[FirstBreak(s)];
  }

  lemma CutShift(head: string, s: string, t: string, n: nat)
    requires t == head + s && n <= |s|
    ensures t[..|head| + n] == head + s[..n] && t[|head| + n..] == s[n..]
    ensures n < |s| ==> t[|head| + n] == s[n]
  {}

  lemma AfterShift(head: string, s: string, t: string, i: nat)
    requires t == head + s && i < |s|
    ensures AfterBreak(t, |head| + i) == |head| + AfterBreak(s, i)
  {
    assert t[|head| + i] == s[i];
    if i + 1 < |s| { assert t[|head| + i + 1] == s[i + 1]; }
  }

  /** Cutting at the first break, behind a text without one. */
  lemma BreakShift(head: string, s: string, t: string)
    requires NoBreak(head) && t == head + s
    ensures var i := FirstBreak(s);
      FirstBreak(t) == |head| + i && t[..FirstBreak(t)] == head + s[..i] &&
      (i < |s| ==> t[AfterBreak(t, FirstBreak(t))..] == s[AfterBreak(s, i)..])
  {
    hide *;
    var i := FirstBreak(s);
    BreakPosition(head, s, t);
    if i < |s| {
      AfterShift(head, s, t, i);
      CutShift(head, s, t, AfterBreak(s, i));
    }
    CutShift(head, s, t, i);
  }

  lemma BreakWithin(a: string, b: string)
    requires !NoBreak(a)
    ensures FirstBreak(a + b) == FirstBreak(a) < |a|
  {
    hide IsBreak;
    var i := FirstBreak(a);
    assert forall j | 0 <= j < |a| :: (a + b)[j] == a[j];
  }

  lemma OneOrNone(line: string)
    ensures DropComments([line]) == if IsComment(line) then [] else [line]
  {
    hide IsComment;
    assert DropComments([line][1..]) == [];
  }

  /** A password behind a line break is never the one read back. */
  lemma LeadingBreakLoses(key: string, c: Credential)
    requires c.username != "" && Trimmed(c.username) && NoBreak(c.username) && ':' !in c.username
    requires NoBreak(Strip(c.password)) && !NoBreak(RStrip(c.password))
    ensures (map[key := SplitCredential(FirstBody(c))] + ParseSasl(Injected(c)))[key].password != Strip(c.password)
  {
    hide FirstBody, Injected, SplitCredential, RStrip, SplitMax, LineOk, IsBreak, IsComment, Strip;
    var p, core := c.password, Strip(c.password);
    var pre, post := StripParts(p);
    RStripParts(p, pre, post);
    EmptyIsOneLine();
    assert core != "";
    assert !NoBreak(pre) by { OneLineBoth(pre, core); }
    assert LineOk(core) by { VisibleLine(p); }
    InjectedAfterBreak(c.username, pre, core, post);
    EmptyFirstPassword(c.username, pre[..FirstBreak(pre)]);
    if IsComment(core) {
      SaslNone(Injected(c));
    } else {
      ParseSaslOne(core);
      if |SplitMax(core, 1)| == 2 { ShorterPassword(core); }
    }
  }

  lemma EmptyIsOneLine()
    ensures NoBreak("")
  {}

  lemma OneLineBoth(a: string, b: string)
    ensures NoBreak(a) && NoBreak(b) ==> NoBreak(a + b)
  {
    hide IsBreak;
  }

  lemma VisibleLine(p: string)
    requires Strip(p) != "" && NoBreak(Strip(p))
    ensures LineOk(Strip(p))
  {}

  /** A credential that fits on one line injects nothing. */
  lemma NothingInjected(c: Credential)
    requires NoBreak(c.username) && NoBreak(RStrip(c.password))
    ensures Injected(c) == []
  {
    hide IsBreak, Injected, FirstBody, LineOk, IsComment, ReadLines;
    var i, n := FirstBreak(c.password), EndNonSpace(c.password);
    InjectedByPassword(c.username, c.password);
    if i < |c.password| {
      assert forall j | 0 <= j < n :: RStrip(c.password)[j] == c.password[j];
      ReadBlank(c.password[AfterBreak(c.password, i)..]);
    }
  }
}
