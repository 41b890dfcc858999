/** How a relay target is read, when the relay operations are accepted, and what text they write. */
module RelayAnswers {
  import opened Text
  import opened Container
  import opened Relay
  import opened RelayStore

  // ---- Targets -------------------------------------------------------------------------------------------

  /** A port in digits, 587 when it is anything else. */
  function Port(text: string): nat { if text != "" && AllDigits(text) then ParseNat(text) else 587 }

  lemma {:induction false} LastColon(head: string, tail: string)
    requires ':' !in tail
    ensures LastIndexOf(head + [':'] + tail, ':') == |head|
  {
    var s := head + [':'] + tail;
    if tail != "" {
      var n := |tail| - 1;
      assert s[..|s| - 1] == head + [':'] + tail[..n];
      LastColon(head, tail[..n]);
      assert s[|s| - 1] == tail[n] && tail[n] in tail;
    } else {
      assert s[|s| - 1] == ':';
    }
  }

  /** MAIN: a host alone relays through port 587. */
  lemma HostAlone(host: string)
    requires host != "" && NoSpace(host) && host[0] != '[' && ':' !in host
    ensures ParseTarget(host) == Target(host, 587)
  {
    NoSpaceTrimmed(host);
    StripTrimmed(host);
  }

  /** MAIN: a host and a port are cut at the last colon; a port that is no number is 587. */
  lemma HostAndPort(host: string, port: string)
    requires NoSpace(host) && NoSpace(port) && (host != "" ==> host[0] != '[') && ':' !in port
    ensures ParseTarget(host + [':'] + port) == Target(host, Port(port))
  {
    hide IsSpace;
    var token := host + [':'] + port;
    assert NoSpace(token) by { ColonIsNoSpace(); }
    NoSpaceTrimmed(token);
    StripTrimmed(token);
    NoSpaceTrimmed(host);
    StripTrimmed(host);
    LastColon(host, port);
    assert token[..|host|] == host && token[|host| + 1..] == port;
  }

  /** MAIN: the same in brackets, which end at the first closing one. */
  lemma HostInBrackets(host: string, port: string)
    requires NoSpace(host) && NoSpace(port) && ']' !in host && (port != "" ==> port[0] != ':')
    ensures ParseTarget("[" + (host + [']'] + "")) == Target(host, 587)
    ensures ParseTarget("[" + (host + [']'] + ([':'] + port))) == Target(host, Port(port))
  {
    hide IsSpace, ParseTarget;
    assert NoSpace("[" + (host + [']'] + "")) && NoSpace("[" + (host + [']'] + ([':'] + port))) by { ColonIsNoSpace(); BracketsAreNoSpace(); }
    ParseBracketed(host, "");
    ParseBracketed(host, [':'] + port);
    assert ([':'] + port)[1..] == port;
    assert DropColons([':'] + port) == DropColons(port) == port;
  }

  lemma BracketsAreNoSpace()
    ensures !IsSpace('[') && !IsSpace(']')
  {}

  // ---- Answers -------------------------------------------------------------------------------------------

  /** MAIN: a relay, or an exclusion, is created if and only if its sender has an at sign and neither a relay nor an
      exclusion yet; a relay is deleted exactly when the sender has one, and so is an exclusion. Refused operations
      change nothing, and no operation touches any other file. */
  lemma RelayAnswered(files: Files, req: Request, sender: string)
    ensures var relays, key := RelaysOf(files), Normalise(req.sender);
      CreateRelay(files, req).1 == if '@' !in key then BadRequest else if key in relays then Conflict
        else Ok(RelayHost(key, Target(Strip(req.host), req.port), Strip(req.username)))
    ensures var relays, key := RelaysOf(files), Normalise(sender);
      CreateExclusion(files, sender).1 == (if '@' !in key then BadRequest else if key in relays then Conflict else Ok(key)) &&
      DeleteRelay(files, sender).1 == (if key in relays && relays[key].Some? then Ok(()) else NotFound) &&
      DeleteExclusion(files, sender).1 == (if key in relays && relays[key].None? then Ok(()) else NotFound)
    ensures !CreateRelay(files, req).1.Ok? ==> CreateRelay(files, req).0 == files
    ensures !CreateExclusion(files, sender).1.Ok? ==> CreateExclusion(files, sender).0 == files
    ensures !DeleteRelay(files, sender).1.Ok? ==> DeleteRelay(files, sender).0 == files
    ensures !DeleteExclusion(files, sender).1.Ok? ==> DeleteExclusion(files, sender).0 == files
    ensures forall p | p != "postfix-relaymap.cf" && p != "postfix-sasl-password.cf" ::
      Read(CreateRelay(files, req).0, p) == Read(files, p) && Read(DeleteRelay(files, sender).0, p) == Read(files, p) &&
      Read(CreateExclusion(files, sender).0, p) == Read(files, p) && Read(DeleteExclusion(files, sender).0, p) == Read(files, p)
  {
    hide RelaysOf, CredentialsOf, Normalise, Strip, PrintRelaymap, PrintSasl;
  }

  // ---- Texts ---------------------------------------------------------------------------------------------

  /** MAIN: the relay map is written below the header as one line per sender, in order: the sender alone when it is
      excluded, else a tab, the host in brackets and the port. */
  lemma RelayText(files: Files, relays: RelayMap)
    ensures var keys := Sorted(relays.Keys);
      WriteRelays(files, relays) == files["postfix-relaymap.cf" := MANAGED_HEADER + Unlines(seq(|keys|, i requires 0 <= i < |keys| =>
        assert keys[i] in keys;
        match relays[keys[i]]
        case None => keys[i]
        case Some(t) => keys[i] + "\t" + ("[" + t.host + "]:" + PrintNat(t.port))))]
  {
    hide Unlines, PrintNat;
    var keys := Sorted(relays.Keys);
    assert RelayLines(keys, relays) == seq(|keys|, i requires 0 <= i < |keys| =>
      assert keys[i] in keys;
      match relays[keys[i]]
      case None => keys[i]
      case Some(t) => keys[i] + "\t" + ("[" + t.host + "]:" + PrintNat(t.port)));
  }

  /** The senders with a username. */
  function NamedKeys(keys: seq<string>, creds: Credentials): (r: seq<string>)
    requires forall k | k in keys :: k in creds
    ensures forall k :: k in r <==> k in keys && creds[k].username != ""
  {
    if keys == [] then []
    else
      var n := |keys| - 1;
      if creds[keys[n]].username == "" then NamedKeys(keys[..n], creds) else NamedKeys(keys[..n], creds) + [keys[n]]
  }

  lemma {:induction false} SaslLinesAre(keys: seq<string>, creds: Credentials)
    requires forall k | k in keys :: k in creds
    ensures var named := NamedKeys(keys, creds);
      SaslLines(keys, creds) == seq(|named|, i requires 0 <= i < |named| =>
        assert named[i] in named;
        named[i] + "\t" + (creds[named[i]].username + ":" + creds[named[i]].password))
  {
    if keys != [] { SaslLinesAre(keys[..|keys| - 1], creds); }
  }

  /** MAIN: the credentials are written below the header as one entry per sender with a username, in order: the
      sender, a tab, the username, a colon and the password. */
  lemma CredentialText(files: Files, creds: Credentials)
    ensures var named := NamedKeys(Sorted(creds.Keys), creds);
      WriteCredentials(files, creds) == files["postfix-sasl-password.cf" := MANAGED_HEADER + Unlines(seq(|named|, i requires 0 <= i < |named| =>
        assert named[i] in named;
        named[i] + "\t" + (creds[named[i]].username + ":" + creds[named[i]].password)))]
  {
    hide Unlines;
    SaslLinesAre(Sorted(creds.Keys), creds);
  }
}
