/** The relay operations (mailserver_service.py) and what every run of them keeps true: the relay map
    read back from its text behaves as one dictionary, and credentials belong to relays. */
module RelayStore {
  import opened Text
  import opened Container
  import opened Relay

  function RelaysOf(files: Files): RelayMap { ParseRelaymap(ReadConfigLines(Read(files, RELAYMAP))) }

  function CredentialsOf(files: Files): Credentials { ParseSasl(ReadConfigLines(Read(files, SASL))) }

  function WriteRelays(files: Files, relays: RelayMap): Files { files[RELAYMAP := PrintRelaymap(relays)] }

  function WriteCredentials(files: Files, creds: Credentials): Files { files[SASL := PrintSasl(creds)] }

  /** A request for a relay; a missing username or password is the empty text. */
  datatype Request = Request(sender: string, host: string, port: nat, username: string, password: string)

  datatype RelayHost = RelayHost(sender: string, target: Target, username: string)

  function CreateRelay(files: Files, req: Request): (Files, Result<RelayHost>) {
    var key := Normalise(req.sender);
    if '@' !in key then (files, BadRequest)
    else if key in RelaysOf(files) then (files, Conflict)
    else
      var target := Target(Strip(req.host), req.port);
      var f1 := WriteRelays(files, RelaysOf(files)[key := Some(target)]);
      var username := Strip(req.username);
      (if username == "" then f1
       else WriteCredentials(f1, CredentialsOf(f1)[key := Credential(username, req.password)]),
       Ok(RelayHost(key, target, username)))
  }

  function DeleteRelay(files: Files, sender: string): (Files, Result<()>) {
    var key := Normalise(sender);
    var relays := RelaysOf(files);
    if key !in relays || relays[key].None? then (files, NotFound)
    else
      var f1 := WriteRelays(files, relays - {key});
      (if key in CredentialsOf(f1) then WriteCredentials(f1, CredentialsOf(f1) - {key}) else f1, Ok(()))
  }

  function CreateExclusion(files: Files, sender: string): (Files, Result<string>) {
    var key := Normalise(sender);
    if '@' !in key then (files, BadRequest)
    else if key in RelaysOf(files) then (files, Conflict)
    else (WriteRelays(files, RelaysOf(files)[key := None]), Ok(key))
  }

  function DeleteExclusion(files: Files, sender: string): (Files, Result<()>) {
    var key := Normalise(sender);
    var relays := RelaysOf(files);
    if key !in relays || relays[key].Some? then (files, NotFound)
    else (WriteRelays(files, relays - {key}), Ok(()))
  }

  class RelayService {
    const dir: ConfigDir

    constructor (dir: ConfigDir)
      ensures this.dir == dir
    {
      this.dir := dir;
    }

    method ReadRelays() returns (relays: RelayMap)
      ensures relays == RelaysOf(dir.files)
    {
      hide ParseRelaymap, ParseTarget, LineOk, Lower;
      var content := dir.ReadConfig(RELAYMAP);
      var lines := ReadConfigLines(content);
      relays := map[];
      RelaymapNone(lines[..0]);
      for i := 0 to |lines|
        invariant relays == ParseRelaymap(lines[..i])
      {
        RelaymapNext(lines, i);
        assert lines[i] in lines && LineOk(lines[i]);
        NotBlank(lines[i]);
        var parts := SplitAll(lines[i]);
        var sender := Lower(parts[0]);
        if |parts| < 2 {
          relays := relays[sender := None];
          continue;
        }
        var t := ParseTarget(parts[1]);
        if t.host != "" { relays := relays[sender := Some(t)]; }
      }
      assert lines[..|lines|] == lines;
    }

    method ReadCredentials() returns (creds: Credentials)
      ensures creds == CredentialsOf(dir.files)
    {
      hide LineOk, Strip, Lower, SplitMax, ParseSasl, ReadConfigLines, SplitCredential;
      var content := dir.ReadConfig(SASL);
      var lines := ReadConfigLines(content);
      creds := map[];
      SaslNone(lines[..0]);
      for i := 0 to |lines|
        invariant creds == ParseSasl(lines[..i])
      {
        SaslNext(lines, i);
        var parts := SplitMax(lines[i], 1);
        if |parts| < 2 { continue; }
        creds := creds[Lower(parts[0]) := SplitCredential(parts[1])];
      }
      assert lines[..|lines|] == lines;
    }

    method AddRelay(req: Request) returns (r: Result<RelayHost>)
      modifies dir
      ensures (dir.files, r) == CreateRelay(old(dir.files), req)
    {
      hide RelaysOf, CredentialsOf, PrintRelaymap, PrintSasl, Normalise, Strip;
      var key := Normalise(req.sender);
      if '@' !in key { return BadRequest; }
      var relays := ReadRelays();
      if key in relays { return Conflict; }
      dir.WriteConfig(RELAYMAP, PrintRelaymap(relays[key := Some(Target(Strip(req.host), req.port))]));
      var username := Strip(req.username);
      if username != "" {
        var creds := ReadCredentials();
        dir.WriteConfig(SASL, PrintSasl(creds[key := Credential(username, req.password)]));
      }
      r := Ok(RelayHost(key, Target(Strip(req.host), req.port), username));
    }

    method RemoveRelay(sender: string) returns (r: Result<()>)
      modifies dir
      ensures (dir.files, r) == DeleteRelay(old(dir.files), sender)
    {
      hide RelaysOf, CredentialsOf, PrintRelaymap, PrintSasl, Normalise;
      var key := Normalise(sender);
      var relays := ReadRelays();
      if key !in relays || relays[key] == None { return NotFound; }
      dir.WriteConfig(RELAYMAP, PrintRelaymap(relays - {key}));
      var creds := ReadCredentials();
      if key in creds { dir.WriteConfig(SASL, PrintSasl(creds - {key})); }
      r := Ok(());
    }

    method AddExclusion(sender: string) returns (r: Result<string>)
      modifies dir
      ensures (dir.files, r) == CreateExclusion(old(dir.files), sender)
    {
      hide RelaysOf, PrintRelaymap, Normalise;
      var key := Normalise(sender);
      if '@' !in key { return BadRequest; }
      var relays := ReadRelays();
      if key in relays { return Conflict; }
      dir.WriteConfig(RELAYMAP, PrintRelaymap(relays[key := None]));
      r := Ok(key);
    }

    method RemoveExclusion(sender: string) returns (r: Result<()>)
      modifies dir
      ensures (dir.files, r) == DeleteExclusion(old(dir.files), sender)
    {
      hide RelaysOf, PrintRelaymap, Normalise;
      var key := Normalise(sender);
      var relays := ReadRelays();
      if key !in relays || relays[key] != None { return NotFound; }
      dir.WriteConfig(RELAYMAP, PrintRelaymap(relays - {key}));
      r := Ok(());
    }
  }

  lemma RelaymapNone(lines: seq<string>)
    requires lines == []
    ensures ParseRelaymap(lines) == map[]
  {}

  lemma RelaymapNext(lines: seq<string>, i: nat)
    requires i < |lines| && forall l | l in lines :: LineOk(l)
    ensures var (sender, entry) := ParseRelayLine(lines[i]);
      var before := ParseRelaymap(lines[..i]);
      ParseRelaymap(lines[..i + 1]) == if entry.Some? then before[sender := entry.value] else before
  {
    hide LineOk, ParseRelayLine;
    assert lines[..i + 1][..i] == lines[..i];
  }

  lemma NotBlank(line: string)
    requires LineOk(line)
    ensures SplitAll(line) != []
  {
    assert LStrip(line) == line;
  }

  // ---- The dictionary and its text ---------------------------------------------------------------

  lemma RelaysAreRead(files: Files)
    ensures RelaysRead(RelaysOf(files))
  {
    RelaymapRead(ReadConfigLines(Read(files, RELAYMAP)));
  }

  lemma CredentialsAreRead(files: Files)
    ensures CredentialsRead(CredentialsOf(files))
  {
    SaslRead(ReadConfigLines(Read(files, SASL)));
  }

  /** MAIN: a dictionary survives being written if and only if its senders are lower-case tokens that
      start no comment and its hosts are tokens without a closing bracket. */
  lemma WriteRelaysIff(files: Files, relays: RelayMap)
    ensures RelaysOf(WriteRelays(files, relays)) == relays <==> RelaysRead(relays) && HostsClean(relays)
  {
    hide RelaysRead, HostsClean, ParseRelaymap, PrintRelaymap, ReadConfigLines;
    RelaysAreRead(WriteRelays(files, relays));
    if RelaysRead(relays) { RelaymapRoundTrip(relays); }
  }

  /** MAIN: creating a relay is exactly the update of one key, and leaves every other relay and exclusion
      alone, if and only if sender and host are tokens of the right form and no stored host already
      holds a closing bracket. */
  lemma CreateRelayIff(files: Files, req: Request)
    requires CreateRelay(files, req).1.Ok?
    ensures var key, host := Normalise(req.sender), Strip(req.host);
      RelaysOf(CreateRelay(files, req).0) == RelaysOf(files)[key := Some(Target(host, req.port))]
      <==> SenderOk(key) && HostOk(host) && HostsClean(RelaysOf(files))
  {
    hide ParseRelaymap, PrintRelaymap, PrintSasl, CredentialsOf, Normalise, Strip, SenderOk, NoSpace, ReadConfigLines;
    var key, t := Normalise(req.sender), Target(Strip(req.host), req.port);
    var relays := RelaysOf(files);
    RelaysAreRead(files);
    UpdateIff(relays, key, Some(t));
    WriteRelaysIff(files, relays[key := Some(t)]);
  }

  lemma UpdateIff(relays: RelayMap, key: string, t: Option<Target>)
    requires RelaysRead(relays) && key !in relays
    ensures RelaysRead(relays[key := t]) && HostsClean(relays[key := t])
       <==> SenderOk(key) && (t.Some? ==> HostOk(t.value.host)) && HostsClean(relays)
  {
    hide SenderOk, NoSpace;
    var updated := relays[key := t];
    assert updated[key] == t;
    if HostsClean(updated) {
      forall k | k in relays && relays[k].Some? ensures ']' !in relays[k].value.host { assert updated[k] == relays[k]; }
    }
  }

  lemma CreateExclusionIff(files: Files, sender: string)
    requires CreateExclusion(files, sender).1.Ok?
    ensures var key := Normalise(sender);
      RelaysOf(CreateExclusion(files, sender).0) == RelaysOf(files)[key := None]
      <==> SenderOk(key) && HostsClean(RelaysOf(files))
  {
    hide ParseRelaymap, PrintRelaymap, Normalise, SenderOk, ReadConfigLines;
    RelaysAreRead(files);
    UpdateIff(RelaysOf(files), Normalise(sender), None);
    WriteRelaysIff(files, RelaysOf(files)[Normalise(sender) := None]);
  }

  lemma DeleteIff(files: Files, sender: string)
    ensures var key := Normalise(sender);
      (DeleteRelay(files, sender).1.Ok? ==>
        (RelaysOf(DeleteRelay(files, sender).0) == RelaysOf(files) - {key} <==> HostsClean(RelaysOf(files) - {key}))) &&
      (DeleteExclusion(files, sender).1.Ok? ==>
        (RelaysOf(DeleteExclusion(files, sender).0) == RelaysOf(files) - {key} <==> HostsClean(RelaysOf(files))))
  {
    hide ParseRelaymap, PrintRelaymap, PrintSasl, CredentialsOf, Normalise, SenderOk, ReadConfigLines, NoSpace;
    var key := Normalise(sender);
    var relays := RelaysOf(files);
    RelaysAreRead(files);
    WriteRelaysIff(files, relays - {key});
    assert RelaysRead(relays - {key});
    if key in relays && relays[key].None? && HostsClean(relays - {key}) {
      forall k | k in relays && relays[k].Some? ensures ']' !in relays[k].value.host { assert k in relays - {key}; }
    }
  }

  // ---- Credentials ---------------------------------------------------------------------------------

  function Named(creds: Credentials): Credentials { map k | k in creds && creds[k].username != "" :: creds[k] }

  lemma ReadIsWritable(c: Credential)
    requires CredentialRead(c)
    ensures CredentialOneLine(c) && RereadCredential(c) == c
  {
    RereadCredentialIff(c);
    StripTrimmed(c.password);
  }

  lemma WriteCredentialsView(files: Files, creds: Credentials)
    requires CredentialsWritable(creds)
    ensures CredentialsOf(WriteCredentials(files, creds))
         == map k | k in creds && creds[k].username != "" :: RereadCredential(creds[k])
  {
    hide PrintSasl, ParseSasl, ReadConfigLines, RereadCredential, CredentialOneLine, SenderOk;
    SaslRoundTrip(creds);
  }

  /** Adding or replacing the credentials of one sender. */
  lemma CredentialUpdate(files: Files, key: string, c: Credential)
    requires SenderOk(key) && CredentialOneLine(c) && c.username != ""
    ensures CredentialsOf(WriteCredentials(files, CredentialsOf(files)[key := c]))
         == Named(CredentialsOf(files))[key := RereadCredential(c)]
  {
    hide PrintSasl, ParseSasl, ReadConfigLines, RereadCredential, CredentialOneLine, SenderOk, CredentialRead;
    CredentialsAreRead(files);
    var creds := CredentialsOf(files);
    forall k | k in creds ensures CredentialOneLine(creds[k]) && RereadCredential(creds[k]) == creds[k] {
      ReadIsWritable(creds[k]);
    }
    WriteCredentialsView(files, creds[key := c]);
  }

  lemma CredentialRemoval(files: Files, key: string)
    ensures CredentialsOf(WriteCredentials(files, CredentialsOf(files) - {key})) == Named(CredentialsOf(files)) - {key}
  {
    hide PrintSasl, ParseSasl, ReadConfigLines, RereadCredential, CredentialOneLine, SenderOk, CredentialRead;
    CredentialsAreRead(files);
    var creds := CredentialsOf(files);
    forall k | k in creds ensures CredentialOneLine(creds[k]) && RereadCredential(creds[k]) == creds[k] {
      ReadIsWritable(creds[k]);
    }
    WriteCredentialsView(files, creds - {key});
  }

  /** Whatever the request, credentials that are read back have a proper sender and hold no break. */
  lemma StoredCredentialsFitOneLine(files: Files, req: Request)
    ensures var creds := CredentialsOf(CreateRelay(files, req).0);
      var key, c := Normalise(req.sender), Credential(Strip(req.username), Strip(req.password));
      key in creds && creds[key] == c ==> SenderOk(key) && ':' !in c.username && NoBreak(c.username) && NoBreak(c.password)
  {
    hide CreateRelay, CredentialsOf, Normalise, Strip, SenderOk, NoBreak;
    CredentialsAreRead(CreateRelay(files, req).0);
  }

  lemma CreateRelayCredentials(files: Files, req: Request)
    requires CreateRelay(files, req).1.Ok? && Strip(req.username) != ""
    requires SenderOk(Normalise(req.sender)) && NoBreak(Strip(req.username)) && NoBreak(RStrip(req.password))
    ensures var u := Strip(req.username);
      CredentialsOf(CreateRelay(files, req).0)
      == Named(CredentialsOf(files))[Normalise(req.sender) := RereadCredential(Credential(u, req.password))]
    ensures var u := Strip(req.username);
      RereadCredential(Credential(u, req.password)) == Credential(u, Strip(req.password)) <==> ':' !in u
  {
    hide PrintSasl, ParseSasl, ReadConfigLines, PrintRelaymap, RelaysOf, SenderOk, Strip, RStrip, NoBreak, Normalise, RereadCredential, Named;
    var c := Credential(Strip(req.username), req.password);
    var f1 := RelayPart(files, req);
    CredentialUpdate(f1, Normalise(req.sender), c);
    RereadCredentialIff(c);
  }

  /** The directory between the two writes of a creation. */
  function RelayPart(files: Files, req: Request): Files {
    WriteRelays(files, RelaysOf(files)[Normalise(req.sender) := Some(Target(Strip(req.host), req.port))])
  }

  /** What the credentials file yields after an entry was added, whatever the entry holds. */
  lemma AfterWrite(files: Files, key: string, c: Credential)
    requires SenderOk(key) && c.username != "" && Trimmed(c.username)
    ensures var creds := CredentialsOf(WriteCredentials(files, CredentialsOf(files)[key := c]));
      creds.Keys == Named(CredentialsOf(files)).Keys + {key} + Senders(Injected(c)) && key in creds &&
      creds[key] == (map[key := SplitCredential(FirstBody(c))] + ParseSasl(Injected(c)))[key]
  {
    hide PrintSasl, ParseSasl, ReadConfigLines, CredentialOneLine, SenderOk, CredentialRead, Injected, FirstBody, SplitCredential, Senders, YieldAll, Yield, RereadCredential, Named, Trimmed;
    CredentialsAreRead(files);
    var creds := CredentialsOf(files)[key := c];
    var keys := Sorted(creds.Keys);
    forall k | k in keys && k != key ensures SenderOk(k) && CredentialOneLine(creds[k]) { ReadIsWritable(creds[k]); }
    PrintedSaslYields(creds);
    YieldAllButOne(keys, creds, key);
    EntryYields(key, c);
    ParseSaslKeys(Injected(c));
    OthersNamed(CredentialsOf(files), keys, key, c);
  }

  lemma OthersNamed(creds: Credentials, keys: seq<string>, key: string, c: Credential)
    requires forall k :: k in keys <==> k in creds[key := c]
    ensures (set k | k in keys && k != key && creds[key := c][k].username != "") + {key} == Named(creds).Keys + {key}
  {}

  /** MAIN: the credentials of a request are stored for its sender, the password stripped, and no other
      named credential is touched, if and only if the sender is a proper token, the username holds neither
      a colon nor a line break and the password no line break before its last visible character. */
  lemma CreateRelayCredentialsIff(files: Files, req: Request)
    requires CreateRelay(files, req).1.Ok? && Strip(req.username) != ""
    ensures var key, u := Normalise(req.sender), Strip(req.username);
      CredentialsOf(CreateRelay(files, req).0) == Named(CredentialsOf(files))[key := Credential(u, Strip(req.password))]
      <==> SenderOk(key) && ':' !in u && NoBreak(u) && NoBreak(RStrip(req.password))
  {
    hide CredentialsOf, RelaysOf, WriteRelays, WriteCredentials, SenderOk, Strip, RStrip, NoBreak, Normalise, RereadCredential, Named,
      FirstBody, Injected, SplitCredential, ParseSasl, Senders;
    var key, u := Normalise(req.sender), Strip(req.username);
    var b := Named(CredentialsOf(files))[key := Credential(u, Strip(req.password))];
    assert key in b && b[key] == Credential(u, Strip(req.password));
    StoredCredentialsFitOneLine(files, req);
    if SenderOk(key) && NoBreak(u) && ':' !in u && NoBreak(Strip(req.password)) {
      if NoBreak(RStrip(req.password)) {
        CreateRelayCredentials(files, req);
      } else {
        var c := Credential(u, req.password);
        AfterWrite(RelayPart(files, req), key, c);
        LeadingBreakLoses(key, c);
      }
    }
    if NoBreak(RStrip(req.password)) { StripOneLine(req.password); }
  }

  lemma StripOneLine(p: string)
    requires NoBreak(RStrip(p))
    ensures NoBreak(Strip(p))
  {
    hide IsBreak, IsSpace;
    var pre, post := StripParts(p);
    RStripParts(p, pre, post);
    assert Strip(p) == "" || forall i | 0 <= i < |Strip(p)| :: Strip(p)[i] == RStrip(p)[|pre| + i];
  }

  // ---- Runs --------------------------------------------------------------------------------------------

  datatype Op =
    | AddRelayOp(req: Request)
    | RemoveRelayOp(sender: string)
    | AddExclusionOp(sender: string)
    | RemoveExclusionOp(sender: string)

  /** Sender and host are proper tokens. */
  predicate Proper(op: Op) {
    match op
    case AddRelayOp(req) => SenderOk(Normalise(req.sender)) && HostOk(Strip(req.host))
    case AddExclusionOp(sender) => SenderOk(Normalise(sender))
    case _ => true
  }

  /** What a request puts into the credentials file. */
  function Written(req: Request): Credential { Credential(Strip(req.username), req.password) }

  /** Whether the operation is accepted and writes credentials. */
  predicate WritesCredentials(relays: RelayMap, op: Op) {
    op.AddRelayOp? && '@' in Normalise(op.req.sender) && Normalise(op.req.sender) !in relays && Strip(op.req.username) != ""
  }

  /** The credentials an operation writes fit on one line, and the username holds no colon. */
  predicate Representable(relays: RelayMap, op: Op) {
    WritesCredentials(relays, op) ==>
      ':' !in Strip(op.req.username) && NoBreak(Strip(op.req.username)) && NoBreak(RStrip(op.req.password))
  }

  function Step(files: Files, op: Op): Files {
    match op
    case AddRelayOp(req) => CreateRelay(files, req).0
    case RemoveRelayOp(sender) => DeleteRelay(files, sender).0
    case AddExclusionOp(sender) => CreateExclusion(files, sender).0
    case RemoveExclusionOp(sender) => DeleteExclusion(files, sender).0
  }

  function Run(files: Files, ops: seq<Op>): Files {
    if ops == [] then files else Step(Run(files, ops[..|ops| - 1]), ops[|ops| - 1])
  }

  /** The store as two dictionaries, and the same operations on them. */
  datatype Store = Store(relays: RelayMap, creds: Credentials)

  function AbstractStep(s: Store, op: Op): Store {
    match op
    case AddRelayOp(req) =>
      var key, u := Normalise(req.sender), Strip(req.username);
      if '@' !in key || key in s.relays then s
      else Store(s.relays[key := Some(Target(Strip(req.host), req.port))],
                 if u == "" then s.creds else s.creds[key := Credential(u, Strip(req.password))])
    case RemoveRelayOp(sender) =>
      var key := Normalise(sender);
      if key in s.relays && s.relays[key].Some? then Store(s.relays - {key}, s.creds - {key}) else s
    case AddExclusionOp(sender) =>
      var key := Normalise(sender);
      if '@' !in key || key in s.relays then s else s.(relays := s.relays[key := None])
    case RemoveExclusionOp(sender) =>
      var key := Normalise(sender);
      if key in s.relays && s.relays[key].None? then s.(relays := s.relays - {key}) else s
  }

  function AbstractRun(s: Store, ops: seq<Op>): Store {
    if ops == [] then s else AbstractStep(AbstractRun(s, ops[..|ops| - 1]), ops[|ops| - 1])
  }

  function StoreOf(files: Files): Store { Store(RelaysOf(files), CredentialsOf(files)) }

  /** Credentials belong to senders that relay, not to excluded or unknown ones. */
  predicate CredentialsBelong(s: Store) { forall k | k in s.creds :: k in s.relays && s.relays[k].Some? }

  predicate AllNamed(creds: Credentials) { forall k | k in creds :: creds[k].username != "" }

  predicate Sound(files: Files) {
    HostsClean(RelaysOf(files)) && AllNamed(CredentialsOf(files)) && CredentialsBelong(StoreOf(files))
  }

  lemma CredentialsAfterRelays(files: Files, relays: RelayMap)
    ensures CredentialsOf(WriteRelays(files, relays)) == CredentialsOf(files)
    ensures forall creds :: RelaysOf(WriteCredentials(files, creds)) == RelaysOf(files)
  {
    hide ParseSasl, ParseRelaymap, ReadConfigLines, PrintRelaymap, PrintSasl;
  }

  lemma NamedIdentity(creds: Credentials)
    requires AllNamed(creds)
    ensures Named(creds) == creds
  {}

  lemma CreateRelayStoreIff(files: Files, req: Request)
    requires Sound(files) && Proper(AddRelayOp(req))
    ensures StoreOf(CreateRelay(files, req).0) == AbstractStep(StoreOf(files), AddRelayOp(req)) <==>
      Representable(RelaysOf(files), AddRelayOp(req))
  {
    hide PrintSasl, PrintRelaymap, RelaysOf, CredentialsOf, SenderOk, HostOk, Strip, RStrip, NoBreak, Normalise, Named, WriteRelays, WriteCredentials, HostsClean;
    if CreateRelay(files, req).1.Ok? {
      CreateRelayIff(files, req);
      var key := Normalise(req.sender);
      var relays := RelaysOf(files)[key := Some(Target(Strip(req.host), req.port))];
      CredentialsAfterRelays(files, relays);
      NamedIdentity(CredentialsOf(files));
      if Strip(req.username) != "" { CreateRelayCredentialsIff(files, req); }
    }
  }

  lemma DeleteRelayStore(files: Files, sender: string)
    requires HostsClean(RelaysOf(files)) && AllNamed(CredentialsOf(files))
    ensures StoreOf(DeleteRelay(files, sender).0) == AbstractStep(StoreOf(files), RemoveRelayOp(sender))
  {
    hide PrintSasl, PrintRelaymap, RelaysOf, CredentialsOf, Normalise, Named, WriteRelays, WriteCredentials;
    if DeleteRelay(files, sender).1.Ok? {
      DeleteIff(files, sender);
      var key := Normalise(sender);
      var f1 := WriteRelays(files, RelaysOf(files) - {key});
      CredentialsAfterRelays(files, RelaysOf(files) - {key});
      NamedIdentity(CredentialsOf(files));
      CredentialRemoval(f1, key);
    }
  }

  /** MAIN: on a sound store an operation run on the texts is the operation on the dictionaries (it updates
      one sender, and rewriting the files drops or alters no other relay, exclusion or credential) if and
      only if the credentials it writes, if any, are representable. */
  lemma StepRefines(files: Files, op: Op)
    requires Sound(files) && Proper(op)
    ensures StoreOf(Step(files, op)) == AbstractStep(StoreOf(files), op) <==> Representable(RelaysOf(files), op)
    ensures Representable(RelaysOf(files), op) ==> Sound(Step(files, op))
  {
    hide PrintRelaymap, PrintSasl, RelaysOf, CredentialsOf, SenderOk, Strip, RStrip, NoBreak, NoSpace, Normalise, Named, WriteCredentials;
    match op {
      case AddRelayOp(req) => CreateRelayStoreIff(files, req);
      case RemoveRelayOp(sender) => DeleteRelayStore(files, sender);
      case AddExclusionOp(sender) =>
        if CreateExclusion(files, sender).1.Ok? {
          CreateExclusionIff(files, sender);
          CredentialsAfterRelays(files, RelaysOf(files)[Normalise(sender) := None]);
        }
      case RemoveExclusionOp(sender) =>
        if DeleteExclusion(files, sender).1.Ok? {
          DeleteIff(files, sender);
          CredentialsAfterRelays(files, RelaysOf(files) - {Normalise(sender)});
        }
    }
    if Representable(RelaysOf(files), op) { AbstractSound(StoreOf(files), op, StoreOf(Step(files, op))); }
  }

  lemma AbstractSound(s: Store, op: Op, s1: Store)
    requires HostsClean(s.relays) && AllNamed(s.creds) && CredentialsBelong(s)
    requires s1 == AbstractStep(s, op) && Proper(op)
    ensures HostsClean(s1.relays) && AllNamed(s1.creds) && CredentialsBelong(s1)
  {
    hide Normalise, Strip, SenderOk, NoSpace, NoBreak;
  }

  /** Every operation of the run wrote representable credentials, if any. */
  predicate RepresentableThroughout(files: Files, ops: seq<Op>) {
    ops != [] ==>
      RepresentableThroughout(files, ops[..|ops| - 1]) && Representable(RelaysOf(Run(files, ops[..|ops| - 1])), ops[|ops| - 1])
  }

  /** MAIN: over every such run from a sound store the files are the dictionaries, and stay sound. */
  lemma {:induction false} RunRefines(files: Files, ops: seq<Op>)
    requires Sound(files) && (forall op | op in ops :: Proper(op)) && RepresentableThroughout(files, ops)
    ensures StoreOf(Run(files, ops)) == AbstractRun(StoreOf(files), ops) && Sound(Run(files, ops))
  {
    hide Sound, Proper, Step, StoreOf, AbstractStep, Representable, RelaysOf;
    if ops != [] {
      var n := |ops| - 1;
      RunRefines(files, ops[..n]);
      assert ops[n] in ops;
      StepRefines(Run(files, ops[..n]), ops[n]);
    }
  }

  /** The files were the dictionaries after every operation of the run. */
  predicate RefinedThroughout(files: Files, ops: seq<Op>) {
    StoreOf(Run(files, ops)) == AbstractRun(StoreOf(files), ops) && (ops != [] ==> RefinedThroughout(files, ops[..|ops| - 1]))
  }

  /** MAIN: over every run from a sound store with proper senders and hosts, the files are the dictionaries at
      every point of it if and only if every operation wrote representable credentials, if any. */
  lemma {:induction false} RunRefinesIff(files: Files, ops: seq<Op>)
    requires Sound(files) && forall op | op in ops :: Proper(op)
    ensures RefinedThroughout(files, ops) <==> RepresentableThroughout(files, ops)
  {
    hide Sound, Proper, Step, StoreOf, AbstractStep, Representable, RelaysOf;
    if ops != [] {
      var n := |ops| - 1;
      RunRefinesIff(files, ops[..n]);
      assert ops[n] in ops;
      if RepresentableThroughout(files, ops[..n]) {
        RunRefines(files, ops[..n]);
        StepRefines(Run(files, ops[..n]), ops[n]);
      }
    }
  }

  lemma EmptyIsSound()
    ensures Sound(map[]) && StoreOf(map[]) == Store(map[], map[])
  {
    assert SplitLines("") == [] && NonBlank([]) == [] && DropComments([]) == [];
  }

  // ---- Credentials and the relays they belong to -----------------------------------------------------------

  predicate Tied(files: Files) { HostsClean(RelaysOf(files)) && CredentialsBelong(StoreOf(files)) }

  /** Every line that username and password inject, and that names a sender, names one with a relay. */
  predicate Harmless(relays: RelayMap, op: Op) {
    WritesCredentials(relays, op) ==>
      forall s | s in Senders(Injected(Written(op.req))) :: s == Normalise(op.req.sender) || (s in relays && relays[s].Some?)
  }

  lemma NamedSubset(creds: Credentials)
    ensures Named(creds).Keys <= creds.Keys
  {}

  lemma HostOkMeans(h: string)
    requires HostOk(h)
    ensures ']' !in h
  {}

  lemma CreateRelayTiedIff(files: Files, req: Request)
    requires Tied(files) && Proper(AddRelayOp(req)) && CreateRelay(files, req).1.Ok?
    ensures Tied(CreateRelay(files, req).0) <==> Harmless(RelaysOf(files), AddRelayOp(req))
  {
    hide PrintRelaymap, PrintSasl, RelaysOf, CredentialsOf, SenderOk, HostOk, Strip, Normalise, Named, WriteCredentials, WriteRelays, Injected, Senders,
      FirstBody, SplitCredential, ParseSasl, Trimmed;
    CreateRelayIff(files, req);
    HostOkMeans(Strip(req.host));
    var key, relays := Normalise(req.sender), RelaysOf(files)[Normalise(req.sender) := Some(Target(Strip(req.host), req.port))];
    var f1 := RelayPart(files, req);
    CredentialsAfterRelays(files, relays);
    CredentialsAfterRelays(f1, relays);
    NamedSubset(CredentialsOf(files));
    var after := CreateRelay(files, req).0;
    assert RelaysOf(after) == relays;
    if Strip(req.username) != "" {
      AfterWrite(f1, key, Written(req));
      var injected := Senders(Injected(Written(req)));
      assert CredentialsOf(after).Keys == Named(CredentialsOf(files)).Keys + {key} + injected;
      assert CredentialsBelong(StoreOf(after)) <==> forall s | s in injected :: s in relays && relays[s].Some?;
    }
  }

  lemma DeleteRelayTied(files: Files, sender: string)
    requires Tied(files)
    ensures Tied(DeleteRelay(files, sender).0)
  {
    hide PrintRelaymap, PrintSasl, RelaysOf, CredentialsOf, Normalise, Named, WriteCredentials, WriteRelays;
    if DeleteRelay(files, sender).1.Ok? {
      DeleteIff(files, sender);
      var key := Normalise(sender);
      var f1 := WriteRelays(files, RelaysOf(files) - {key});
      CredentialsAfterRelays(files, RelaysOf(files) - {key});
      CredentialsAfterRelays(f1, RelaysOf(files) - {key});
      NamedSubset(CredentialsOf(files));
      CredentialRemoval(f1, key);
    }
  }

  /** MAIN: exactly when an operation leaves credentials only with senders that have a relay. A password, or
      a username, of several lines adds the lines after the first to the credentials file as they are. */
  lemma StepTiedIff(files: Files, op: Op)
    requires Tied(files) && Proper(op)
    ensures Tied(Step(files, op)) <==> Harmless(RelaysOf(files), op)
  {
    hide PrintRelaymap, PrintSasl, RelaysOf, CredentialsOf, SenderOk, Strip, NoSpace, Normalise, Named, WriteCredentials, WriteRelays, Injected, Senders;
    match op {
      case AddRelayOp(req) => if CreateRelay(files, req).1.Ok? { CreateRelayTiedIff(files, req); }
      case RemoveRelayOp(sender) => DeleteRelayTied(files, sender);
      case AddExclusionOp(sender) =>
        if CreateExclusion(files, sender).1.Ok? {
          CreateExclusionIff(files, sender);
          CredentialsAfterRelays(files, RelaysOf(files)[Normalise(sender) := None]);
        }
      case RemoveExclusionOp(sender) =>
        if DeleteExclusion(files, sender).1.Ok? {
          DeleteIff(files, sender);
          CredentialsAfterRelays(files, RelaysOf(files) - {Normalise(sender)});
        }
    }
  }

  /** Credentials were tied to relays after every operation of the run. */
  predicate TiedThroughout(files: Files, ops: seq<Op>) {
    Tied(Run(files, ops)) && (ops != [] ==> TiedThroughout(files, ops[..|ops| - 1]))
  }

  /** Every operation of the run was harmless when it came. */
  predicate HarmlessThroughout(files: Files, ops: seq<Op>) {
    ops != [] ==>
      HarmlessThroughout(files, ops[..|ops| - 1]) && Harmless(RelaysOf(Run(files, ops[..|ops| - 1])), ops[|ops| - 1])
  }

  /** MAIN: over every run, credentials exist only for senders that have a relay, at every point of it, if and
      only if every operation was harmless when it came. */
  lemma {:induction false} RunTiedIff(files: Files, ops: seq<Op>)
    requires Tied(files) && forall op | op in ops :: Proper(op)
    ensures TiedThroughout(files, ops) <==> HarmlessThroughout(files, ops)
  {
    hide Tied, Harmless, Step, Proper, RelaysOf;
    if ops != [] {
      var n := |ops| - 1;
      RunTiedIff(files, ops[..n]);
      assert ops[n] in ops;
      if Tied(Run(files, ops[..n])) { StepTiedIff(Run(files, ops[..n]), ops[n]); }
    }
  }

  lemma RepresentableIsHarmless(relays: RelayMap, op: Op)
    requires Representable(relays, op)
    ensures Harmless(relays, op)
  {
    hide Strip, RStrip, Normalise, NoBreak, Injected, SplitMax;
    if WritesCredentials(relays, op) { NothingInjected(Written(op.req)); }
  }

  /** In particular, over every run of one-line credentials they exist only for senders that have a relay. */
  lemma {:induction false} RunKeepsCredentialsTied(files: Files, ops: seq<Op>)
    requires Tied(files) && (forall op | op in ops :: Proper(op)) && RepresentableThroughout(files, ops)
    ensures Tied(Run(files, ops))
  {
    hide Tied, Step, Harmless, Proper, Representable, RelaysOf;
    if ops != [] {
      var n := |ops| - 1;
      RunKeepsCredentialsTied(files, ops[..n]);
      assert ops[n] in ops;
      RepresentableIsHarmless(RelaysOf(Run(files, ops[..n])), ops[n]);
      StepTiedIff(Run(files, ops[..n]), ops[n]);
    }
  }

  // ---- Inputs ----------------------------------------------------------------------------------------------

  /** MAIN: exactly the senders that have credentials after a creation: those named before, the sender itself and
      every sender that an injected line names. */
  lemma StoredSenders(files: Files, req: Request)
    requires SenderOk(Normalise(req.sender)) && WritesCredentials(RelaysOf(files), AddRelayOp(req))
    ensures CredentialsOf(CreateRelay(files, req).0).Keys ==
      Named(CredentialsOf(files)).Keys + {Normalise(req.sender)} + Senders(Injected(Written(req)))
  {
    hide RelaysOf, CredentialsOf, WriteRelays, WriteCredentials, SenderOk, Strip, Normalise, Named, FirstBody, SplitCredential, ParseSasl, Injected, Senders, Trimmed;
    CredentialsAfterRelays(files, RelaysOf(files)[Normalise(req.sender) := Some(Target(Strip(req.host), req.port))]);
    AfterWrite(RelayPart(files, req), Normalise(req.sender), Written(req));
  }

  /** For instance a password whose second line names another sender gives that sender credentials, relay or not. */
  lemma SecondLineIsCredential(files: Files, req: Request, other: string)
    requires Tied(files) && Proper(AddRelayOp(req)) && WritesCredentials(RelaysOf(files), AddRelayOp(req))
    requires NoBreak(Strip(req.username)) && SenderOk(other) && req.password == "x\n" + (other + " v:p")
    ensures var after := CreateRelay(files, req).0;
      other in CredentialsOf(after) &&
      (other != Normalise(req.sender) && !(other in RelaysOf(files) && RelaysOf(files)[other].Some?) ==> !Tied(after))
  {
    hide RelaysOf, CredentialsOf, WriteRelays, WriteCredentials, SenderOk, Strip, Normalise, Named, FirstBody, SplitCredential, ParseSasl, Injected, Trimmed, NoBreak;
    SecondLineInjected(Strip(req.username), other);
    assert Written(req) == Credential(Strip(req.username), "x\n" + (other + " v:p"));
    AfterWrite(RelayPart(files, req), Normalise(req.sender), Written(req));
    CreateRelayTiedIff(files, req);
  }

  lemma SecondLineInjected(u: string, other: string)
    requires NoBreak(u) && SenderOk(other)
    ensures other in Senders(Injected(Credential(u, "x\n" + (other + " v:p"))))
  {
    hide SenderOk, SplitMax, ReadLines, Injected, FirstBody, IsBreak, NoBreak, LineOk, IsComment, RStrip, AfterBreak;
    var line := other + [' '] + "v:p";
    var p := "x\n" + (other + " v:p");
    assert p == "x\n" + line;
    SecondLine(line, p);
    InjectedByPassword(u, p);
    SpaceLine(other, "v:p");
    ReadPadded("", line, "");
    assert "" + line + "" == line;
    OneOrNone(line);
    SenderIsLower(other);
    assert line in Injected(Credential(u, p));
  }

  lemma SecondLine(line: string, p: string)
    requires p == "x\n" + line
    ensures FirstBreak(p) == 1 < |p| && p[AfterBreak(p, 1)..] == line
  {
    assert p[0] == 'x' && p[1] == '\n' && p[2..] == line;
  }

  lemma SpaceLine(sender: string, body: string)
    requires SenderOk(sender) && body != "" && NoSpace(body)
    ensures var l := sender + [' '] + body; LineOk(l) && !IsComment(l) && SplitMax(l, 1) == [sender, body]
  {
    hide SplitMax;
    NoSpaceTrimmed(sender);
    NoSpaceTrimmed(body);
    SeparatedLine(sender, ' ', body);
    SplitMaxToken(sender, ' ', body, 1);
    SplitMaxWhole(body);
  }

  const INJECTING := Request("@a.io", "smtp.a.io", 587, "u", "x\n" + ("@other.org" + " v:p"))

  /** For instance, on the empty store this request leaves credentials for a sender without a relay. */
  lemma InjectionFromEmptyStore()
    ensures var after := CreateRelay(map[], INJECTING).0;
      Tied(map[]) && "@other.org" in CredentialsOf(after) && !Tied(after)
  {
    hide RelaysOf, CredentialsOf, Tied;
    EmptyIsSound();
    assert Tied(map[]) by { SoundIsTied(map[]); }
    assert RelaysOf(map[]) == map[];
    InjectingIsProper();
    SecondLineIsCredential(map[], INJECTING, "@other.org");
  }

  lemma SoundIsTied(files: Files)
    requires Sound(files)
    ensures Tied(files)
  {}

  lemma InjectingIsProper()
    ensures Proper(AddRelayOp(INJECTING)) && Normalise(INJECTING.sender) == "@a.io" && Strip(INJECTING.username) == "u"
    ensures SenderOk("@other.org") && NoBreak("u") && "@a.io" != "@other.org"
  {
    hide Strip, Lower, NoSpace;
    SmallTokens();
    OtherSender();
    StripTrimmed("@a.io");
    StripTrimmed("u");
    StripTrimmed("smtp.a.io");
    assert |"@a.io"| != |"@other.org"|;
  }

  lemma SmallTokens()
    ensures NoSpace("@a.io") && Lower("@a.io") == "@a.io" && Trimmed("@a.io") && Trimmed("u") && NoBreak("u")
    ensures NoSpace("smtp.a.io") && Trimmed("smtp.a.io")
  {
    NoSpaceTrimmed("smtp.a.io");
  }

  lemma OtherSender()
    ensures SenderOk("@other.org")
  {
    assert Lower("@other.org") == "@other.org";
  }

  /** A password with a line break before its last visible character is never the one read back. */
  lemma TwoLinePassword(files: Files, req: Request)
    requires CreateRelay(files, req).1.Ok? && Strip(req.username) != "" && !NoBreak(RStrip(req.password))
    ensures CredentialsOf(CreateRelay(files, req).0) !=
      Named(CredentialsOf(files))[Normalise(req.sender) := Credential(Strip(req.username), Strip(req.password))]
  {
    hide CreateRelay, CredentialsOf, Normalise, Strip, RStrip, NoBreak, Named;
    CreateRelayCredentialsIff(files, req);
  }

  const HAND_WRITTEN := "@a.io" + " " + "host]x:25"

  /** A hand-written host with a closing bracket is read, and altered by any rewrite of the map. */
  lemma BracketIsAltered()
    ensures var files: Files := map[RELAYMAP := HAND_WRITTEN];
      RelaysOf(files) == map["@a.io" := Some(Target("host]x", 25))] && RelaysOf(WriteRelays(files, RelaysOf(files))) != RelaysOf(files)
  {
    hide ParseRelaymap, PrintRelaymap, ReadConfigLines;
    var files: Files := map[RELAYMAP := HAND_WRITTEN];
    HandWrittenIsRead();
    var relays := RelaysOf(files);
    assert relays["@a.io"].value.host[4] == ']';
    assert !HostsClean(relays);
    WriteRelaysIff(files, relays);
  }

  lemma HandWrittenIsRead()
    ensures ParseRelaymap(ReadConfigLines(HAND_WRITTEN)) == map["@a.io" := Some(Target("host]x", 25))]
  {
    hide ReadLines, SplitAll, ParseTarget, SplitMax, Lower;
    var line := "@a.io" + [' '] + "host]x:25";
    assert HAND_WRITTEN == line;
    SmallTokens();
    HostToken();
    assert SenderOk("@a.io");
    SpaceLine("@a.io", "host]x:25");
    SpaceTokens("@a.io", "host]x:25");
    ReadPadded("", line, "");
    assert "" + line + "" == line;
    OneOrNone(line);
    BracketTarget();
    assert [line][..0] == [];
  }

  lemma SpaceTokens(a: string, b: string)
    requires a != "" && NoSpace(a) && b != "" && NoSpace(b)
    ensures SplitAll(a + [' '] + b) == [a, b]
  {
    hide SplitAll;
    SplitAllToken(a, ' ', b);
    SplitOne(b);
  }

  lemma HostToken()
    ensures NoSpace("host]x:25") && NoSpace("host]x") && NoSpace("25")
  {}

  lemma BracketTarget()
    ensures ParseTarget("host]x:25") == Target("host]x", 25)
  {
    hide Strip;
    HostToken();
    NoSpaceTrimmed("host]x:25");
    NoSpaceTrimmed("host]x");
    NoSpaceTrimmed("25");
    StripTrimmed("host]x:25");
    StripTrimmed("host]x");
    StripTrimmed("25");
    var t := "host]x:25";
    assert t[6] == ':' && t[7] != ':' && t[8] != ':';
    assert LastIndexOf(t, ':') == 6;
    assert t[..6] == "host]x" && t[7..] == "25" && t[0] != '[';
    assert "25"[..1] == "2" && "2"[..0] == "";
    assert ParseNat("") == 0 && ParseNat("2") == 2 && ParseNat("25") == 25;
  }
}
