# Mailserver UI: a verified model

This project models the stateful core of the Mailserver UI backend, and one small piece of its
frontend, and proves what that code promises. `dafny verify dfyconfig.toml` checks it.

| file | models |
|---|---|
| `Limiter.dfy`, `RateLimit.dfy` | the sliding-window limiter and the two-tier admission of the middleware |
| `Text.dfy`, `Container.dfy` | Python's text operations (strip, split, splitlines, partition, int, sorted) and the configuration directory as a map from path to text |
| `Provisioning.dfy`, `Aliases.dfy`, `Mailboxes.dfy`, `MailboxStore.dfy`, `MailboxAnswers.dfy` | accounts, quotas, aliases and personal Sieve filters: parsers, the operations that rewrite whole files, and what every run of them keeps true |
| `Relay.dfy`, `RelayStore.dfy`, `RelayAnswers.dfy` | relay hosts, exclusions and their credentials |
| `Overrides.dfy`, `OverrideAnswers.dfy`, `Rspamd.dfy`, `Directives.dfy` | Postfix overrides and Rspamd directives |
| `Dkim.dfy`, `DkimRecords.dfy`, `DkimMigration.dfy`, `SigningConf.dfy`, `DkimDirectories.dfy` | DKIM key files and the migration from OpenDKIM to Rspamd |
| `Accounts.dfy`, `AccountsSafety.dfy`, `SignIn.dfy`, `Memberships.dfy`, `AccountsDb.dfy` | users, groups, memberships and tokens: the state machine, its safety over runs, what each credential resolves to, and the service methods as in-place updates of the tables |
| `MailStats.dfy`, `LogLines.dfy`, `Usage.dfy`, `UsageRows.dfy` | the mail statistics loop and the usage report |
| `Schema.dfy`, `AppSchema.dfy`, `Version.dfy` | the startup schema migration and the version comparison |

Where the source changes state (the limiter's buckets, the files, the database, the counters), a class or a
method with the same loops does so here, and its postcondition equates the new state with a specification
function; the theorems are about those functions. Where the source computes with expressions, functions do.
What a reader should know of the model:

- Time is a `real` (limiter) or an `int` (tokens, log stamps) given to each call; the limiter theorems ask
  only that it never goes back.
- A database step is atomic. Fresh ids are any ids not in use, so they may be reused after a deletion.
- Password verification, token digests, the RSA key size of a PEM text and the time stamp of a log line are
  given functions: the theorems hold for every choice of them. No digest is assumed injective; the unique
  column of the token table is what the proofs use.
- Texts are sequences of characters with Python's white space and line breaks written out, including the
  breaks other than CR and LF at which `splitlines` cuts.

Findings, each proved with its exact condition and a concrete input:

- A validated mailbox address may hold `|`, the separator of the accounts file (`StepRefines`,
  `RunSoundIff`, `BarCreatesA`, `BarBreaksIntegrity`).
- A hand-written relay host that holds `]` is altered by the next rewrite of the relay map (`RelaymapRoundTrip`,
  `BracketIsAltered`).
- A relay password (or username) with a line break writes further lines into the credentials file: a password whose
  second line names another sender gives that sender credentials, relay or not (`StepTiedIff`, `RunTiedIff`,
  `InjectionFromEmptyStore`), and is not itself read back (`CreateRelayCredentialsIff`).
- Rspamd validation lets line breaks other than CR and LF through (`GetAfterSetIff`, `VerticalTabIsLost`),
  and Postfix override values are not checked for any (`ListAfterSetIff`, `TwoLineValueIsLost`).
- Migrated DKIM names are ambiguous for selectors that look like the key size, and collide for selectors with
  hyphens (`ReadBackIff`, `SizeSelectorIsMisread`,
  `AllReadBackIff`, `CollidingKeyIsLost`); a migration that fails half-way leaves domains that count as
  migrated without a signing block (`FailedMigrationStrandsDomains`, `SecondKeyNotRsa`).
- Steps that lower a role can remove the last active administrator (`RunAdminIff`, the four
  `...KeepsAnAdminIff` lemmas, `OnlyAdminGroup`, `SignsInLower`).
- A pre-release passes for newer than its release (`SuffixIsNewerIff`, `PrereleaseLooksNewer`).

## Model

| member | source | states |
|---|---|---|
| `Limiter.SlidingWindowLimiter.CheckHit` | backend/app/security.py:79-100 | One check updates the buckets, the last-cleanup time and the widest window in place exactly as one step of the specification, and answers its verdict. |
| `Limiter.SlidingWindowLimiter.PopExpired` | backend/app/security.py:86-92 | The popping loop leaves the bucket without its leading expired hits and touches no other bucket. |
| `Limiter.SlidingWindowLimiter.SweepIdle` | backend/app/security.py:102-112 | The delete loop removes exactly the buckets that are empty or whose newest hit is older than the widest window seen. |
| `Limiter.LimiterRefinesReference` | backend/app/security.py:79-112 | Over every run with a clock that never goes back, every verdict (allowed and Retry-After) equals that of a limiter that never deletes a hit: eviction and sweep are unobservable. |
| `Limiter.CoupledCheck` | backend/app/security.py:79-112 | The step of that simulation: stored buckets that are the full log without expired leading hits stay so, and answer alike. |
| `Limiter.BucketsStayFresh` | backend/app/security.py:102-112 | Over every run every stored bucket is non-empty and its newest hit is later than the last sweep minus the widest window. |
| `Limiter.RateBound` | backend/app/security.py:86-100 | Over every run, any window of any key holds at most its limit of admitted hits. |
| `Limiter.KeysDoNotInterfere` | backend/app/security.py:79-112 | Every call is answered as if only the calls for its own key had been made, although all keys share one sweep. |
| `Limiter.RefusalBounds` | backend/app/security.py:91-100 | Every refusal answers 1 <= r <= window + 1, above the time until the oldest stored hit expires by at most one second. |
| `Limiter.RetryAfterExact` | backend/app/security.py:91-100 | With those bounds, a later check of the key is admitted exactly when the oldest stored hit has expired, whatever refused checks came in between, hence always at now + r. |
| `Limiter.AdmittedIff` | backend/app/security.py:79-100 | Over every run a check is admitted if and only if fewer hits of its key than the limit were admitted in the window before it; admitted checks answer 0, refused ones the whole seconds until the oldest of those hits leaves the window. |
| `Limiter.MemoryIsRecent` | backend/app/security.py:102-112 | After an admitted check memory holds no bucket whose newest hit is older than the widest window by 300 seconds. |
| `RateLimit.RateLimitMiddleware.Handle` | backend/app/security.py:155-182 | One request is dispatched in the order of the source: exemptions, global budget, then the login budget of login POSTs only. |
| `RateLimit.KeyFamilies` | backend/app/security.py:165-178 | The global and the login keys of any clients are disjoint, injective in the client, and each family has its own limit. |
| `RateLimit.DispatchCalls` | backend/app/security.py:155-182 | The checks a request makes, derived from its answer: none when exempt, one global, and a login check only after the global one passed. |
| `RateLimit.RequestSpends` | backend/app/security.py:155-182 | Exact accounting over every run of the hits each request consumes per key; a request refused globally consumes no login hit. |
| `RateLimit.LoginsAreAdmitted` | backend/app/security.py:171-178 | The forwarded login POSTs of a client are exactly the admitted hits of its login key. |
| `RateLimit.ForwardedRateBound` | backend/app/security.py:155-182 | For every client address, no window forwards more than the configured number of requests below /api/ (the health probe aside), and no login window more than the configured number of POSTs to the login path among them. |
| `RateLimit.AnswerIff` | backend/app/security.py:155-182 | Exactly what every request of an in-order run is answered, its selection written out: other requests than API ones leave the limiter alone; an API request is refused for the global budget exactly when the window before is full, else a login POST for the login budget exactly when its window is, with the wait in each case. |
| `Text.SplitUnlines` | backend/app/services/mailbox_service.py:69-78 | Splitting what a list of one-line entries was written as gives the list back. |
| `Text.ReadUnlines` | backend/app/services/mailbox_service.py:69-78 | Writing trimmed one-line entries and reading them back is the identity. |
| `Text.ReadManagedLines` | backend/app/services/mailserver_service.py:264-277 | The managed header is read over: entries written below it are read back unchanged. |
| `Text.ParsePrint` | backend/app/services/mailserver_service.py:304-319 | Parsing a printed number gives the number. |
| `Text.PrintParse` | backend/app/services/mailserver_service.py:304-319 | Printing a parsed number gives the digits, if they have no leading zero. |
| `Text.ReadAppend` | backend/app/services/mailbox_service.py:69-78 | Whatever line breaks an entry holds, reading it and what follows its newline is reading one after the other. |
| `Text.SplitMaxToken` | backend/app/services/mailserver_service.py:322-352 | A token followed by white space is split off whole, the rest being split with one cut fewer. |
| `Text.SplitKeyReads` | backend/app/services/mailbox_service.py:84-87 | A line is cut at its first separator; without one there is no value. |
| `Text.LowerIs` | backend/app/services/mailbox_service.py:61-66 | Each capital letter of ASCII becomes its small one and nothing else changes. |
| `Text.SpacesAre` | backend/app/services/mailbox_service.py:69-78 | The 29 white space characters of Python, and the ten of them that end a line. |
| `Text.StrLeIff` | backend/app/services/mailbox_service.py:196-212 | Keys are sorted by the first character in which they differ, a beginning before what it begins. |
| `Container.ConfigDir.WriteConfig` | backend/app/services/container.py:145-160 | Writing sets one path and leaves every other file alone. |
| `Container.ConfigDir.ReadConfig` | backend/app/services/container.py:136-142 | An absent file reads as the empty text. |
| `Provisioning.AccountLineRoundTrip` | backend/app/services/mailbox_service.py:84-87 | A printed account line is read back as its address and hash. |
| `Provisioning.AccountLineCut` | backend/app/services/mailbox_service.py:84-87 | An address that holds a bar is read back as the part before the first bar. |
| `Provisioning.AddressesAre` | backend/app/services/mailbox_service.py:90-94 | The account addresses are exactly the non-empty owners of lines. |
| `Provisioning.WithoutOwnerAddresses` | backend/app/services/mailbox_service.py:145-160 | Dropping the lines of an address removes it from the address list and keeps the others in order. |
| `Provisioning.WithoutOwnerHashes` | backend/app/services/mailbox_service.py:145-160 | ... and keeps the hashes of every other address. |
| `Provisioning.WithHashFacts` | backend/app/services/mailbox_service.py:163-182 | Replacing a password changes the hashes of that address only and keeps every address. |
| `Provisioning.QuotasRoundTrip` | backend/app/services/mailbox_service.py:185-212 | A quota map that came from a file survives being printed sorted and read back. |
| `Aliases.AliasLineRoundTrip` | backend/app/services/mailbox_service.py:297-306 | A printed alias line re-parses to its source and its targets. |
| `Aliases.StrikeLine` | backend/app/services/mailbox_service.py:344-387 | Striking a target from one line keeps untouched lines verbatim, rewrites hit ones to the remaining targets, and drops the line when none remains. |
| `Aliases.StrikeAllPairs` | backend/app/services/mailbox_service.py:344-387 | delete_alias removes exactly the pair (source, target) and _remove_target_from_aliases exactly the pairs with that target, as relations read back from the text. |
| `Aliases.HitIffPair` | backend/app/services/mailbox_service.py:344-369 | The not-found answer fires exactly when the pair is not in the relation. |
| `Aliases.AppendAddsPair` | backend/app/services/mailbox_service.py:321-341 | Appending a line adds exactly that pair if and only if the source holds no white space and the target no comma. |
| `Mailboxes.MailboxService.CreateMailbox` | backend/app/services/mailbox_service.py:127-142 | In-place form of creation: validation, duplicate check, append, optional quota; the new files and the answer are those of the specification function whose properties are proved below. |
| `Mailboxes.MailboxService.DeleteMailbox` | backend/app/services/mailbox_service.py:145-160 | In-place form of deletion with its quota, alias and Sieve clean-up; the new files and the answer are those of the specification function whose properties are proved below. |
| `Mailboxes.MailboxService.ResetPassword` | backend/app/services/mailbox_service.py:163-182 | In-place form of the rewriting loop of a password change; the new files and the answer are those of the specification function whose properties are proved below. |
| `Mailboxes.MailboxService.ChangeQuota` | backend/app/services/mailbox_service.py:281-294 | In-place form of setting or removing a quota; the new files and the answer are those of the specification function whose properties are proved below. |
| `Mailboxes.MailboxService.CreateAlias` | backend/app/services/mailbox_service.py:321-341 | In-place form of alias creation with its existence and duplicate checks; the new files and the answer are those of the specification function whose properties are proved below. |
| `Mailboxes.MailboxService.RemoveAlias` | backend/app/services/mailbox_service.py:344-369 | In-place form of the rewriting loop of alias deletion; the new files and the answer are those of the specification function whose properties are proved below. |
| `Mailboxes.MailboxService.RemoveTargetFromAliases` | backend/app/services/mailbox_service.py:372-387 | In-place form of the rewriting loop that removes one target everywhere; the new files and the answer are those of the specification function whose properties are proved below. |
| `Mailboxes.MailboxService.ReadQuotas` | backend/app/services/mailbox_service.py:185-193 | In-place form of the loop that collects the quota dictionary; the new files and the answer are those of the specification function whose properties are proved below. |
| `Mailboxes.MailboxService.SetSieveScript` | backend/app/services/mailbox_service.py:414-434 | In-place form of storing or clearing a personal Sieve filter; the new files and the answer are those of the specification function whose properties are proved below. |
| `Mailboxes.MailboxService.DeleteSieveScript` | backend/app/services/mailbox_service.py:437-445 | In-place form of deleting a personal Sieve filter; the new files and the answer are those of the specification function whose properties are proved below. |
| `MailboxStore.StepRefines` | backend/app/services/mailbox_service.py:127-387 | Each validated operation on the three text files (and the Sieve files) updates the entry of one address in a map from address to hashes, quota, aliases and filter, the entries of all other addresses untouched and refused operations changing nothing, if and only if it is not an accepted creation whose address holds a bar. |
| `MailboxStore.CreateEntries` | backend/app/services/mailbox_service.py:127-142 | What an accepted creation does to every entry, bar or not: the hash goes to the address its line is read back under, the quota to the address of the request. |
| `MailboxStore.BarCreatesA` | backend/app/services/mailbox_service.py:127-142 | A concrete accepted address with a bar that gives another address a hash. |
| `MailboxStore.IntegrityMeans` | backend/app/services/mailbox_service.py:90-212 | The invariant in file terms: distinct account addresses, every quota key and every alias target an existing account. |
| `MailboxStore.StepSoundIff` | backend/app/services/mailbox_service.py:127-387 | A validated operation keeps a sound directory sound if and only if it is careful: not an accepted creation, or an address without a bar, or no quota and no account at the part before the bar. |
| `MailboxStore.RunSoundIff` | backend/app/services/mailbox_service.py:127-387 | Over every run of validated operations (create, delete, set_password, set_quota, add_alias, delete_alias, Sieve) the directory is sound at every point if and only if every operation was careful when it came. |
| `MailboxStore.RunKeepsIntegrity` | backend/app/services/mailbox_service.py:127-387 | In particular every run whose new addresses hold no bar stays sound. |
| `MailboxStore.EmptyIsSound` | backend/app/services/mailbox_service.py:69-94 | The empty directory is sound. |
| `MailboxStore.BarBreaksIntegrity` | backend/app/services/mailbox_service.py:127-142 | On the empty directory an accepted address with a bar, created with a quota, breaks the integrity. |
| `MailboxStore.CreateKeepsIntegrityIff` | backend/app/services/mailbox_service.py:127-142 | For any validated address (which may hold a bar): creation keeps the store consistent if and only if the address holds no bar, or no quota was asked for and the part before the bar is no account yet. |
| `MailboxAnswers.StepAcceptedIff` | backend/app/services/mailbox_service.py:127-445 | Exactly when each of the eight operations is accepted, in terms of account lines and alias pairs. |
| `MailboxAnswers.CreateAnswers` | backend/app/services/mailbox_service.py:127-142 | Which creation is refused and how, the line an accepted one appends to the accounts file, and the files it leaves alone. |
| `MailboxAnswers.AccountAnswers` | backend/app/services/mailbox_service.py:145-294 | The same for deletion, password and quota changes. |
| `MailboxAnswers.QuotaAnswered` | backend/app/services/mailbox_service.py:281-294 | A quota change answers the quota that was asked for, none when it was cleared. |
| `MailboxAnswers.QuotaText` | backend/app/services/mailbox_service.py:196-212 | The quota file is one line `address:quota` per address, in order. |
| `MailboxAnswers.AddAliasAnswers` | backend/app/services/mailbox_service.py:321-341 | An alias is refused as not found without a target account, as bad without an at sign or when it is its target, as a conflict when it is an account or forwards there already; otherwise one line is appended. |
| `MailboxAnswers.DeleteAliasAnswers` | backend/app/services/mailbox_service.py:344-369 | An alias is deleted exactly when its target is an account it forwards to, and then no longer forwards there. |
| `MailboxAnswers.SieveAddressIff` | backend/app/services/mailbox_service.py:50-50 | The addresses a filter may be stored for: two parts of the listed characters around one at sign. |
| `MailboxAnswers.SieveAnswers` | backend/app/services/mailbox_service.py:414-445 | A filter is stored, removed when blank, or refused; its file is named after the address and holds the stripped script. |
| `Relay.TargetTextParse` | backend/app/services/mailserver_service.py:304-319 | A printed target is read back if and only if its host holds no closing bracket. |
| `Relay.RelaymapRoundTrip` | backend/app/services/mailserver_service.py:322-364 | A relay map read from a file survives rewriting if and only if no host holds a closing bracket. |
| `Relay.RereadCredentialIff` | backend/app/services/mailserver_service.py:342-374 | A credential is read back as itself, password stripped, if and only if the username holds no colon. |
| `RelayStore.RelayService.ReadRelays` | backend/app/services/mailserver_service.py:322-339 | The reading loop computes the dictionary of senders to relay or exclusion. |
| `RelayStore.RelayService.ReadCredentials` | backend/app/services/mailserver_service.py:342-351 | The reading loop computes the credential dictionary. |
| `RelayStore.RelayService.AddRelay` | backend/app/services/mailserver_service.py:411-435 | In-place relay creation equals its specification: files and answer. |
| `RelayStore.RelayService.RemoveRelay` | backend/app/services/mailserver_service.py:438-453 | In-place relay deletion with its credentials equals its specification. |
| `RelayStore.RelayService.AddExclusion` | backend/app/services/mailserver_service.py:465-475 | In-place exclusion equals its specification. |
| `RelayStore.RelayService.RemoveExclusion` | backend/app/services/mailserver_service.py:478-486 | In-place removal of an exclusion equals its specification. |
| `RelayStore.WriteRelaysIff` | backend/app/services/mailserver_service.py:354-364 | Exactly which dictionaries survive being written. |
| `RelayStore.CreateRelayIff` | backend/app/services/mailserver_service.py:411-435 | Creating a relay is the update of one key of the dictionary read back from the text if and only if sender and host are proper tokens and no stored host holds a closing bracket. |
| `RelayStore.CreateExclusionIff` | backend/app/services/mailserver_service.py:465-475 | The same for an exclusion. |
| `RelayStore.DeleteIff` | backend/app/services/mailserver_service.py:438-486 | The same for both deletions: exactly one key goes if and only if no remaining host holds a closing bracket. |
| `Relay.SaslRoundTrip` | backend/app/services/mailserver_service.py:342-374 | Credentials whose username and password, up to its last visible character, fit on one line are read back with the username cut at its first colon and the password stripped; entries without a username are gone. |
| `Relay.EntryIsRead` | backend/app/services/mailserver_service.py:342-374 | Whatever line breaks username and password hold, the entry is read as one line for its sender followed by the lines they inject. |
| `RelayStore.BracketIsAltered` | backend/app/services/mailserver_service.py:304-364 | The hand-written line "@a.io host]x:25" is read as such and altered by any rewrite. |
| `RelayStore.CreateRelayCredentialsIff` | backend/app/services/mailserver_service.py:411-435 | For every accepted request with a username: its credentials are stored, password stripped, with no other named credential touched, if and only if the sender is a proper token, the username holds neither colon nor line break and the password no line break before its last visible character. |
| `RelayStore.StepRefines` | backend/app/services/mailserver_service.py:411-486 | On a sound store an operation with a proper sender and host, run on the texts, is the operation on the two dictionaries if and only if the credentials it writes, if any, are representable (one line, no colon in the username); then the store stays sound. |
| `RelayStore.RunRefines` | backend/app/services/mailserver_service.py:411-486 | Over every run of such operations with representable credentials the files are the dictionaries: no rewrite drops or alters another entry. |
| `RelayStore.RunRefinesIff` | backend/app/services/mailserver_service.py:411-486 | Over every run from a sound store with proper senders and hosts the files are the dictionaries at every point if and only if every operation wrote representable credentials, if any. |
| `RelayStore.StoredSenders` | backend/app/services/mailserver_service.py:411-435 | Exactly the senders with credentials after a creation: those named before, the sender itself and every sender an injected line names. |
| `RelayStore.StepTiedIff` | backend/app/services/mailserver_service.py:411-486 | An operation leaves credentials only with senders that have a relay if and only if every line its username and password inject, and that names a sender, names one with a relay. |
| `RelayStore.RunTiedIff` | backend/app/services/mailserver_service.py:411-486 | Over every run with proper senders and hosts credentials exist only for senders that have a relay, at every point of it, if and only if every operation met that condition when it came. |
| `RelayStore.RunKeepsCredentialsTied` | backend/app/services/mailserver_service.py:411-486 | In particular this holds over every run whose credentials are representable. |
| `RelayStore.SecondLineIsCredential` | backend/app/services/mailserver_service.py:411-435 | A password that consists of x, a newline and a one-line entry of another sender gives that sender credentials, with or without a relay. |
| `RelayStore.InjectionFromEmptyStore` | backend/app/services/mailserver_service.py:411-435 | A concrete request that, on the empty store, leaves credentials for a sender without a relay. |
| `RelayStore.TwoLinePassword` | backend/app/services/mailserver_service.py:367-374 | No password with a line break before its last visible character is read back. |
| `RelayStore.EmptyIsSound` | backend/app/services/mailserver_service.py:322-351 | The empty store is sound. |
| `RelayAnswers.HostAlone` | backend/app/services/mailserver_service.py:304-319 | A host without a port relays through port 587. |
| `RelayAnswers.HostAndPort` | backend/app/services/mailserver_service.py:304-319 | A host and a port are cut at the last colon; a port that is no number is 587. |
| `RelayAnswers.HostInBrackets` | backend/app/services/mailserver_service.py:304-319 | The same in brackets. |
| `RelayAnswers.RelayAnswered` | backend/app/services/mailserver_service.py:411-486 | Exactly when the four operations are accepted and what they answer; refused ones change nothing. |
| `RelayAnswers.RelayText` | backend/app/services/mailserver_service.py:354-364 | The relay map as text: per sender, in order, the sender alone or a tab, the host in brackets and the port. |
| `RelayAnswers.CredentialText` | backend/app/services/mailserver_service.py:367-374 | The credentials as text: per sender with a username, in order, a tab, username, colon and password. |
| `Overrides.OverrideService.List` | backend/app/services/mailserver_service.py:492-535 | The listing loop equals its specification for main.cf and master.cf overrides. |
| `Overrides.OverrideService.Set` | backend/app/services/mailserver_service.py:503-564 | Validation, de-duplication through a dictionary and the write equal their specification. |
| `Overrides.PutAllMeans` | backend/app/services/mailserver_service.py:503-521 | Cleaning keeps one entry per key, at the position of its first occurrence, with the value of its last. |
| `Overrides.ListAfterSetIff` | backend/app/services/mailserver_service.py:492-564 | After a set, listing returns exactly the cleaned overrides if and only if the last value the request gives to each key, trimmed, holds no line break. |
| `Overrides.CleanedAreLast` | backend/app/services/mailserver_service.py:503-521 | What is written is exactly the last entry of the request for each key, trimmed. |
| `Overrides.TwoLineValueIsLost` | backend/app/services/mailserver_service.py:492-521 | A main.cf value of two lines is accepted and not the one listed. |
| `Overrides.SetAgain` | backend/app/services/mailserver_service.py:503-564 | Setting the returned overrides again changes nothing. |
| `Overrides.OverrideRoundTrip` | backend/app/services/mailserver_service.py:492-564 | A printed override parses back to its key and value, for both files. |
| `Overrides.BodyRoundTrip` | backend/app/services/mailserver_service.py:280-293 | Free-form content written below the managed header is read back stripped, even when it opens with a header of its own. |
| `Overrides.BodyIsCanonical` | backend/app/services/mailserver_service.py:280-293 | It is written as the header alone when blank, else as the header, the content without white space around it and one newline; writing what was read writes the same text. |
| `OverrideAnswers.AcceptedIff` | backend/app/services/mailserver_service.py:215-219 | Exactly which keys are well formed: a parameter name, or a service, a type and a parameter between slashes. |
| `OverrideAnswers.SetAnswers` | backend/app/services/mailserver_service.py:503-564 | A request is accepted if and only if every key in it is blank or well formed; the text written is one line per override, with spaces around the equals sign in main.cf and none in master.cf. |
| `OverrideAnswers.LineReads` | backend/app/services/mailserver_service.py:492-535 | A line is cut at its first equals sign; without one, or without a key before it, it is no override. |
| `Rspamd.RspamdService.GetCommands` | backend/app/services/mailserver_service.py:1391-1404 | The reading loop keeps the parsed commands in order and skips what does not parse. |
| `Rspamd.RspamdService.ReplaceCommands` | backend/app/services/mailserver_service.py:1407-1422 | All commands are validated before anything is written; the first invalid one refuses the request and leaves the file alone. |
| `Rspamd.FormatParse` | backend/app/services/mailserver_service.py:1289-1315 | A command built from surviving arguments is printed to a line that parses back to it. |
| `Rspamd.ParseFormatParse` | backend/app/services/mailserver_service.py:1289-1315 | Parsing, printing and parsing again is parsing, for every line. |
| `Rspamd.ValidateAllInOrder` | backend/app/services/mailserver_service.py:1318-1343 | Validation keeps number, order and duplicates. |
| `Rspamd.GetAfterSetIff` | backend/app/services/mailserver_service.py:1391-1422 | After a set, a get returns exactly the cleaned commands in order if and only if no value of the request, stripped, holds a line break where the directive takes one. |
| `Rspamd.VerticalTabValidates` | backend/app/services/mailserver_service.py:1318-1343 | Validation only refuses CR and LF: a value with a vertical tab, at which reading breaks lines, passes. |
| `Rspamd.VerticalTabIsLost` | backend/app/services/mailserver_service.py:1391-1422 | ... and such a value is not the one read back. |
| `Directives.SettingText` | backend/app/services/mailserver_service.py:178-180 | Directives that set an option of all, the controller or the proxy are written as keyword, option, value and read back from that text. |
| `Directives.SwitchText` | backend/app/services/mailserver_service.py:181-182 | Module switches are written as keyword and module and read back. |
| `Directives.ModuleOptionText` | backend/app/services/mailserver_service.py:183-183 | Module options are written as keyword, module, option, value and read back. |
| `Directives.AddLineText` | backend/app/services/mailserver_service.py:184-184 | Line additions are written as keyword, file, line and read back. |
| `Directives.OtherKeyword` | backend/app/services/mailserver_service.py:1289-1308 | A line with any other keyword is no directive. |
| `Directives.SettingAccepted` | backend/app/services/mailserver_service.py:1318-1343 | Setting directives are accepted if and only if the option is a name and the stripped value is not empty and holds neither CR nor LF. |
| `Directives.SwitchAccepted` | backend/app/services/mailserver_service.py:1318-1343 | Module switches are accepted if and only if the module is a name. |
| `Directives.ModuleOptionAccepted` | backend/app/services/mailserver_service.py:1318-1343 | Module options are accepted if and only if module and option are names and the value is as above. |
| `Directives.AddLineAccepted` | backend/app/services/mailserver_service.py:1318-1343 | Line additions are accepted if and only if the file is two names around one dot and the line is as above. |
| `Directives.WrittenCommands` | backend/app/services/mailserver_service.py:1407-1422 | A request is accepted if and only if all its commands are; the file then holds their lines in order below the header. |
| `Dkim.RecordOpensWithSelector` | backend/app/services/mailserver_service.py:590-617 | A record that opens with its selector label is read with that selector. |
| `Dkim.AmbiguousHyphenFree` | backend/app/services/mailserver_service.py:620-648 | For a selector without hyphens the marker matches too early exactly when the selector is the printed key size. |
| `Dkim.ReadBackIff` | backend/app/services/mailserver_service.py:620-648 | A record copied under its migrated name is read back with its selector and domain if and only if it opens with the selector, the domain is not empty and the marker does not match too early (first occurrence of "-selector-"). |
| `Dkim.SizeSelectorIsMisread` | backend/app/services/mailserver_service.py:620-648 | A key whose selector is its printed size is never read back under its migrated name. |
| `Dkim.BaseNameInjective` | backend/app/services/mailserver_service.py:715-735 | Migrated names of hyphen-free selectors are injective in size, selector and domain. |
| `DkimRecords.QuotedReads` | backend/app/services/mailserver_service.py:590-594 | The TXT value is the quoted segments of a record, joined. |
| `DkimRecords.PublicKeyReads` | backend/app/services/mailserver_service.py:590-594 | The public key is what follows the first `p=`, as far as it is Base64. |
| `DkimRecords.SelectorIff` | backend/app/services/mailserver_service.py:631-634 | Exactly which selector a record opens with: up to the last label before the first white space. |
| `DkimRecords.OpendkimKeysAre` | backend/app/services/mailserver_service.py:597-617 | The OpenDKIM keys are exactly those of the record files two levels below the key directory. |
| `DkimRecords.RspamdKeysAre` | backend/app/services/mailserver_service.py:620-648 | The keys Rspamd sees are exactly those of the record files whose name continues with a domain behind the first `-selector-`. |
| `DkimRecords.MigrateAnswers` | backend/app/services/mailserver_service.py:674-752 | A migration goes through if and only if Rspamd is on, some domain has a key only OpenDKIM sees, there is no signing configuration, and the keys of all such domains are RSA; it answers these domains in order. |
| `DkimMigration.DkimService.MigrateToRspamd` | backend/app/services/mailserver_service.py:689-756 | The copying loop with its early failure equals its specification, including the copies a failure leaves behind. |
| `DkimMigration.CopyIsWritten` | backend/app/services/mailserver_service.py:708-735 | The copying loop writes exactly the target files, each with the original source text. |
| `DkimMigration.MigrationComplete` | backend/app/services/mailserver_service.py:674-756 | Given RSA keys, records that open with their selectors, unambiguous and distinct names: after success no candidate is left, every migrated key is read back with selector, TXT value and public key, and every key Rspamd read before is still read. |
| `DkimMigration.AllReadBackIff` | backend/app/services/mailserver_service.py:674-756 | A successful migration of RSA keys leaves every migrated key readable under its name and every record read before unchanged if and only if all records open with their selectors, no marker matches early, no two keys share a name and no name was taken. |
| `DkimMigration.WellNamedHidesNothing` | backend/app/services/mailserver_service.py:715-735 | With hyphen-free selectors and existing Rspamd records named after the keys they are read as, no name is taken. |
| `DkimMigration.WellFormedMeetsConditions` | backend/app/services/mailserver_service.py:674-756 | RSA keys with hyphen-free selectors other than the printed size, whose records open with them, beside such records, meet the conditions of all these theorems. |
| `DkimDirectories.OnePairMigrates` | backend/app/services/mailserver_service.py:674-756 | A key pair whose record opens with its hyphen-free selector, different from the printed RSA size, meets those conditions and migrates. |
| `DkimDirectories.CollidingKeyIsLost` | backend/app/services/mailserver_service.py:689-756 | Of the keys a at b-c.example and a-b at c.example, which get one name, a successful migration loses the first: its record is replaced by the other one, Rspamd does not read it and its domain still is a candidate. |
| `DkimMigration.FailedMigrationStrandsDomains` | backend/app/services/mailserver_service.py:708-735 | When a key is not RSA and the keys before it meet the conditions, the migration is refused without a signing configuration; candidates are lost if and only if a key was copied before it, and a repeated migration copies none of those keys. |
| `DkimDirectories.SecondKeyNotRsa` | backend/app/services/mailserver_service.py:708-735 | A directory with two domains of which the first is stranded that way. |
| `DkimMigration.MigrationFaithful` | backend/app/services/mailserver_service.py:689-756 | Under the same conditions the signing configuration holds one block per migrated key, the private key each block points at is the OpenDKIM one, and no OpenDKIM file is touched. |
| `SigningConf.SigningConfReads` | backend/app/services/mailserver_service.py:708-752 | The signing configuration, read back, holds the seven settings and per migrated key, in order, its domain, its selector and the path of a file that holds the private key OpenDKIM signed with. |
| `DkimMigration.HyphenFreeNamesApart` | backend/app/services/mailserver_service.py:715-735 | Hyphen-free selectors meet the distinct-names condition of the two theorems above. |
| `Accounts.HighestRoleIsHighest` | backend/app/auth.py:42-54 | The maximum over a list of stored roles is the highest role of the set of roles: order and repetition do not matter. |
| `AccountsDb.Database.GetGrantedRoles` | backend/app/services/group_service.py:30-49 | Whatever order the joined rows come in, the dictionary gives each requested user exactly the roles of its groups. |
| `AccountsDb.Database.ResolveRole` | backend/app/services/user_service.py:43-53 | The role of one account is its effective role. |
| `AccountsDb.Database.ResolveMany` | backend/app/services/user_service.py:78-86 | Batch resolution gives each account its effective role, the same as one at a time. |
| `AccountsDb.Database.CountActiveAdmins` | backend/app/services/user_service.py:222-228 | The count over the batch is the number of active accounts whose effective role is admin. |
| `AccountsDb.Database.CheckLastAdmin` | backend/app/services/user_service.py:212-228 | True exactly for an active admin when there is no other. |
| `AccountsDb.Database.ToSessionUser` | backend/app/services/user_service.py:56-63 | The principal carries the current effective role. |
| `AccountsDb.Database.CreateLocalUser` | backend/app/services/user_service.py:181-209 | Creation with its blank and duplicate checks; tables and answer are those of the step. |
| `AccountsDb.Database.DeleteUser` | backend/app/routers/users.py:183-214 | The ordered guards, then memberships, tokens and account; tables and answer are those of the step. |
| `AccountsDb.Database.SetUserStatus` | backend/app/routers/users.py:217-248 | The ordered guards of a status change; tables and answer are those of the step. |
| `AccountsDb.Database.ChangeOwnPassword` | backend/app/services/user_service.py:264-297 | Own password rotation with its three refusals; tables and answer are those of the step. |
| `AccountsDb.Database.DeleteGroup` | backend/app/services/group_service.py:115-126 | A group goes with all its memberships (the other loopless group, password and token handlers are proved the same way); tables and answer are those of the step. |
| `AccountsDb.Database.AddUsersToGroup` | backend/app/routers/groups.py:112-145 | Every user is looked up before the first insert; inserts are idempotent; tables and answer are those of the step. |
| `AccountsDb.Database.AuthenticateLocal` | backend/app/services/user_service.py:112-131 | Local login; a deactivated account answers like a wrong password; tables and answer are those of the step. |
| `AccountsDb.Database.UpsertOidcUser` | backend/app/services/user_service.py:134-175 | Provider sign-in; a local account is never taken over, a deactivated one is forbidden; tables and answer are those of the step. |
| `AccountsDb.Database.CreateToken` | backend/app/services/pat_service.py:87-129 | Token issue with the per-user cap; tables and answer are those of the step. |
| `AccountsDb.Database.AuthenticateToken` | backend/app/services/pat_service.py:154-191 | A presented token resolves to its owner, touching its last use at most once a minute; tables and answer are those of the step. |
| `AccountsDb.Database.CurrentUser` | backend/app/depends.py:51-89 | Cookie first, then a bearer credential that looks like a token; tables and answer are those of the step. |
| `AccountsSafety.StepKeepsValid` | backend/app/services/user_service.py:181-261 | Every step keeps usernames and digests unique and every membership and token attached to an existing user and group, also when ids are reused. |
| `AccountsSafety.RunKeepsValid` | backend/app/services/user_service.py:181-261 | The same over every run. |
| `AccountsSafety.FreshAccountIsGuest` | backend/app/services/user_service.py:181-209 | In any reachable state a freshly created local account is a guest without tokens, even when its id was used before. |
| `AccountsSafety.EffectiveAdminIff` | backend/app/services/user_service.py:43-53 | An account is effectively admin if and only if its own role or the role of one of its groups is. |
| `AccountsSafety.RunAdminIff` | backend/app/routers/users.py:183-248 | Over every run an active administrator remains at every point if and only if every leaving, group change, group deletion and provider sign-in left one when it came; no other step matters. |
| `AccountsSafety.StepAdminIff` | backend/app/routers/users.py:183-248 | The same for one step, with the condition on the state before it. |
| `AccountsSafety.StepKeepsAnAdmin` | backend/app/routers/users.py:183-248 | An active administrator survives every step except leaving or deleting a group that grants more than guest, giving a group a lower role, and a provider sign-in with a lower role. |
| `AccountsSafety.RunKeepsAnAdmin` | backend/app/routers/users.py:183-248 | The same over every run without such steps. |
| `AccountsSafety.LastAdminGuard` | backend/app/services/user_service.py:212-240 | The last active administrator is neither deleted nor deactivated: the step is refused and changes nothing. |
| `AccountsSafety.CallerIsNotRefused` | backend/app/routers/users.py:198-203 | When the caller is an active admin other than the target, the last-admin refusal cannot fire. |
| `AccountsSafety.GuardedStepRefusedIff` | backend/app/routers/users.py:183-248 | Behind the administrator guard, deleting or deactivating an existing account is refused exactly when it is the caller's own; the last-administrator refusal is never the reason. |
| `AccountsSafety.GuardMeansActiveAdmin` | backend/app/depends.py:127-133 | Whoever passes require_admin is an active administrator at that moment. |
| `AccountsSafety.DeleteGroupKeepsAnAdminIff` | backend/app/services/group_service.py:115-126 | Exactly when deleting a group leaves an active administrator. |
| `AccountsSafety.RemoveMemberKeepsAnAdminIff` | backend/app/services/group_service.py:142-152 | Exactly when leaving a group leaves an active administrator. |
| `AccountsSafety.UpdateGroupKeepsAnAdminIff` | backend/app/services/group_service.py:93-112 | Exactly when changing a group's role leaves an active administrator. |
| `AccountsSafety.LoginOidcKeepsAnAdminIff` | backend/app/services/user_service.py:134-175 | Exactly when a provider sign-in leaves an active administrator. |
| `AccountsSafety.GroupAdminIsReached` | backend/app/services/group_service.py:81-181 | A run from the empty tables reaches a state whose only administrator is one through a group. |
| `AccountsSafety.OnlyAdminGroup` | backend/app/services/group_service.py:93-152 | In that state leaving the group, deleting it or making it a guest group loses the last administrator. |
| `AccountsSafety.SignedInIsReached` | backend/app/services/user_service.py:134-175 | A run from the empty tables reaches a state whose only administrator is one by its sign-in role. |
| `AccountsSafety.SignsInLower` | backend/app/services/user_service.py:134-175 | In that state signing in again with a lower role loses the last administrator. |
| `AccountsSafety.ResolvedIsAuthentic` | backend/app/depends.py:51-89 | Whoever a cookie, token, local login or provider sign-in resolves to is active at that step and carries the current effective role. |
| `AccountsSafety.ProviderAndLocalRoleFixed` | backend/app/services/user_service.py:134-175 | No step changes an account's provider or username, nor the stored role of a local account. |
| `AccountsSafety.InactiveNeverResolves` | backend/app/depends.py:64-89 | Between a deactivation and a reactivation no step resolves to the account, whichever credential is presented. |
| `AccountsSafety.StepKeepsTokensCapped` | backend/app/services/pat_service.py:103-109 | No step lets an account own more tokens than the limit. |
| `AccountsSafety.IssuedTokenResolvesIff` | backend/app/services/pat_service.py:154-177 | An issued token resolves to its owner exactly while tokens are enabled, the owner is active and the token has not expired. |
| `AccountsSafety.RevokedTokenIsDead` | backend/app/services/pat_service.py:132-137 | A revoked token resolves to nobody. |
| `SignIn.LoginResolvesIff` | backend/app/services/user_service.py:112-131 | A local login resolves if and only if an active local account of that name has a stored hash that verifies the password, then to that account; every other login is anonymous and changes nothing. |
| `SignIn.CreatedSignsIn` | backend/app/services/user_service.py:181-209 | Creation is refused exactly for a blank or taken name; afterwards a login under the stripped name resolves if and only if its hash verifies the password, and other names are as before. |
| `SignIn.PasswordChangedIff` | backend/app/services/user_service.py:264-297 | Exactly when changing one's own password is accepted; then the new hash alone decides logins under that name. |
| `SignIn.PasswordResetIff` | backend/app/routers/users.py:251-281 | The same for a reset by an administrator. |
| `SignIn.StatusDecidesSignIn` | backend/app/routers/users.py:217-248 | A status change moves that flag alone; an inactive account lets nobody in by password or cookie. |
| `SignIn.DeletedIsGone` | backend/app/services/user_service.py:253-261 | A deletion removes exactly the account, its memberships and its tokens; its name gets nobody in. |
| `SignIn.OnlyTheseDecideSignIn` | backend/app/services/user_service.py:112-131 | Over every run, who can sign in to a local account changes only by changing its password or status or deleting it. |
| `SignIn.CookieResolvesIff` | backend/app/depends.py:64-76 | A session cookie resolves if and only if an active account has its name, then to that account. |
| `SignIn.TokenResolvesIff` | backend/app/depends.py:78-89 | Without a cookie a request resolves if and only if tokens are enabled and it bears the secret of an unexpired token of an active account; only the last use of that token changes. |
| `SignIn.TokenIssuedIff` | backend/app/services/pat_service.py:87-129 | Exactly when a token is issued, and what is stored of it. |
| `SignIn.TokenRevokedIff` | backend/app/services/pat_service.py:69-81 | Only the owner revokes a token, and only that token goes. |
| `SignIn.ProviderSignsIn` | backend/app/services/user_service.py:134-175 | A provider sign-in creates or refreshes the account of its name and resolves to it, unless that is local or inactive. |
| `Memberships.RoleOfName` | backend/app/auth.py:42-45 | Which stored names stand for which role; every other text is a guest. |
| `Memberships.RoleGrantsIff` | backend/app/auth.py:57-60 | Each role implies those before it. |
| `Memberships.EffectiveIsHighest` | backend/app/services/user_service.py:43-53 | The effective role is granted by the account or one of its groups, and no higher one is. |
| `Memberships.AddedMembers` | backend/app/routers/groups.py:114-145 | Users are added if and only if the group and all of them exist; exactly these memberships are added and exactly these users' roles raised to that of the group. |
| `Memberships.RemovedMember` | backend/app/services/group_service.py:142-152 | Exactly that membership goes, and nobody else's role changes. |
| `Memberships.CreatedGroup` | backend/app/services/group_service.py:81-90 | A group is created unless its name is taken, and changes nobody's role. |
| `Memberships.UpdatedGroup` | backend/app/services/group_service.py:93-112 | A group is changed unless it is missing or the name is another's; roles outside it stay, and its members are granted the new role. |
| `Memberships.DeletedGroup` | backend/app/services/group_service.py:115-126 | A group goes with its memberships and nothing else; roles outside it stay. |
| `Memberships.RunKeepsGroupNames` | backend/app/services/group_service.py:81-112 | Over every run no two groups have the same name. |
| `MailStats.GetMailStats` | backend/app/services/mailserver_service.py:952-1010 | The single pass with its set of seen ids computes the declared counters. |
| `MailStats.CountLine` | backend/app/services/mailserver_service.py:982-1009 | The branches of one line inside the window: at most one outcome, at most one of virus and spam. |
| `MailStats.CountIsSize` | backend/app/services/mailserver_service.py:977-1009 | A counter is the number of positions that have its property. |
| `MailStats.OutcomesPartition` | backend/app/services/mailserver_service.py:984-1009 | Each in-window line is in exactly one of seven classes, which add up; received never exceeds the cleanup lines; virus and spam exclude each other. |
| `MailStats.ReinjectionIsNotCounted` | backend/app/services/mailserver_service.py:996-1002 | A further cleanup line under a known id adds nothing; one without an id adds one every time. |
| `MailStats.StatsPermute` | backend/app/services/mailserver_service.py:952-1010 | All counters are invariant under permuting the lines. |
| `MailStats.StatsGrowWithWindow` | backend/app/services/mailserver_service.py:973-981 | All counters are monotone in the window. |
| `MailStats.ParsedIffDated` | backend/app/services/mailserver_service.py:979-982 | `parsed` holds exactly when some line of the window could be dated; otherwise every counter is zero. |
| `LogLines.LineAdds` | backend/app/services/mailserver_service.py:978-1009 | What one more line adds to every counter, in terms of the texts it holds: the outcome by the first matching text, the message by its id, virus or else spam by their words; a line outside the window is only scanned. |
| `LogLines.HasWordIff` | backend/app/services/mailserver_service.py:255-258 | A word occurs where no letter, digit or underscore stands next to it. |
| `LogLines.MessageIdIff` | backend/app/services/mailserver_service.py:242-245 | The id is that of the first message-id with something visible behind it, up to its closing chevron or the next white space. |
| `Usage.GetUsage` | backend/app/services/mailbox_service.py:226-278 | The dictionary filled row by row, the percentages, the sort and the totals equal the declared summary. |
| `Usage.CountRow` | backend/app/services/mailbox_service.py:248-263 | One row updates at most the record of its own account. |
| `Usage.LastRowDecides` | backend/app/services/mailbox_service.py:252-263 | The figures of an account are those of the last row about it. |
| `Usage.AccountWithoutRows` | backend/app/services/mailbox_service.py:229-232 | An account without rows is reported with nothing used and no limit. |
| `Usage.AccountsListedOnce` | backend/app/services/mailbox_service.py:244-269 | The result lists exactly the accounts, once each, in descending usage with ties in address order. |
| `Usage.TotalsConserve` | backend/app/services/mailbox_service.py:270-278 | The totals are the sums over the accounts; the total limit is there exactly when there is an account and all are capped. |
| `Usage.PercentagesInRange` | backend/app/services/mailbox_service.py:265-267 | With non-negative cells percentages lie in 0..100, exist exactly for capped accounts, and below 100 are the nearest integer to the share. |
| `Usage.UnknownRowsIgnored` | backend/app/services/mailbox_service.py:248-254 | A short row, a row of another kind or about an unknown address changes nothing wherever it stands. |
| `UsageRows.RowReads` | backend/app/services/mailbox_service.py:248-254 | Which cell of a row is the address, the kind, the value and the limit. |
| `UsageRows.AmountReads` | backend/app/services/mailbox_service.py:215-223 | A cell of digits is their number, a dash or nothing none. |
| `UsageRows.IntReads` | backend/app/services/mailbox_service.py:215-223 | A plus and single underscores between digits do not count; anything else is no number. |
| `UsageRows.FiguresOf` | backend/app/services/mailbox_service.py:255-263 | The last storage row of an account gives use and limit in kibibytes, a limit of zero being none, and the last message row the number of messages. |
| `UsageRows.PercentIs` | backend/app/services/mailbox_service.py:265-267 | A percentage is the nearest integer to the share, the even one of two, and at most 100. |
| `UsageRows.ReportedAccounts` | backend/app/services/mailbox_service.py:110-124 | The accounts reported are the owners of account lines that hold an at sign. |
| `Schema.MigrateSchema` | backend/app/database.py:68-108 | The three loops of statements go through exactly when no null is to be carried over, and then leave exactly the database the specification describes. |
| `Schema.AddColumnsOf` | backend/app/database.py:80-90 | The inner loop appends exactly the missing columns with their defaults and keeps its column snapshot in step. |
| `Schema.CarryRenamed` | backend/app/database.py:92-98 | The rename loop: every UPDATE finds its target column, the loop fails exactly when some value to carry is null, and otherwise moves all columns. |
| `Schema.ValuesMove` | backend/app/database.py:92-98 | In every row a renamed column's value is under the new name and the old column is gone. |
| `Schema.OthersKept` | backend/app/database.py:80-98 | Every other column keeps its values; a missing one appears with its default. |
| `Schema.TablesAndRowsKept` | backend/app/database.py:100-108 | Exactly the obsolete tables go, row counts do not change, unmentioned tables are untouched. |
| `Schema.MigrationIsIdempotent` | backend/app/database.py:68-108 | After a migration the database is current and a second run changes nothing. |
| `Schema.UnchangedIffCurrent` | backend/app/database.py:68-108 | The migration leaves a database alone if and only if it is current. |
| `Schema.AppConfigIsCoherent` | backend/app/database.py:28-51 | The configured additions, renames and drops meet the conditions of the theorems. |
| `AppSchema.AppMigration` | backend/app/database.py:28-51 | What becomes of every column of the application's tables: the two renamed claims, active accounts, guest groups, empty claims, no api_key table, everything else as it was. |
| `Version.IsNewerVersion` | frontend/src/app/features/about/about.ts:80-91 | The index loop with its early returns decides the lexicographic order of the zero-padded versions. |
| `Version.NewerIsAsymmetric` | frontend/src/app/features/about/about.ts:80-91 | Irreflexive and asymmetric. |
| `Version.NewerIsTransitive` | frontend/src/app/features/about/about.ts:80-91 | Transitive. |
| `Version.NewerOrTie` | frontend/src/app/features/about/about.ts:80-91 | Of two versions one is newer or they tie: a strict weak order. |
| `Version.TieIffTrailingZeros` | frontend/src/app/features/about/about.ts:80-91 | Two versions tie exactly when they differ only by trailing zeros. |
| `Version.ReleaseReadsBack` | frontend/src/app/features/about/about.ts:72-78 | A dotted release number is read back as its numbers, with or without a leading v. |
| `Version.SuffixReads` | frontend/src/app/features/about/about.ts:72-78 | A release number followed by anything that starts with no digit is read as the release, then as the numbers of the later dotted parts. |
| `Version.SuffixIsNewerIff` | frontend/src/app/features/about/about.ts:72-91 | Such a version passes for newer than its release if and only if the first number it adds other than zero is positive, for older if and only if it is negative. |
| `Version.OneLineSuffix` | frontend/src/app/features/about/about.ts:72-91 | On one line a suffix never makes a version older, and newer exactly when it adds a number other than zero. |
| `Version.PartReads` | frontend/src/app/features/about/about.ts:72-78 | Of an unbroken part only the digits it opens with count; without any the part does not count. |
| `Version.SecondLineReads` | frontend/src/app/features/about/about.ts:72-78 | A number at the start of a second line counts, with its sign. |
| `Version.PrereleaseLooksNewer` | frontend/src/app/features/about/about.ts:72-78 | 1.0-rc.1 reads as 1.0.1 and passes for newer than 1.0. |

## Left out

- Locks, asyncio and the second worker process: calls are modelled one after the other.
- `docker exec`, subprocess handling, timeouts, restarts and the shell-level temporary file: only the map from path to text is modelled. The newline translation of subprocess text mode is not.
- bcrypt, SHA-256, JWT signing, PEM parsing and random tokens are given functions or parameters; so is the parser of log time stamps, whose two regular expressions and year guess are not modelled. E-mail validation appears as a predicate on addresses.
- Lower-casing is that of ASCII, and white space that of the Python and JavaScript characters listed in `Text` and `Version`; other Unicode characters count as letters that are neither.
- Floating point: the limiter's clock and the usage percentages are exact reals. JavaScript numbers are unbounded integers in `Version`, so precision loss above 2^53 and the overflow to infinity are not modelled.
- File names hold no line break: a directory is listed line by line, and what a listing makes of such a name is not modelled.
- The limiter asks for a limit of at least one, as a limit of zero makes the source index an empty bucket.
- RelayStore.RunTiedIff: asks that senders and hosts be proper tokens (no white space, no leading `#`, no closing bracket in a host); `CreateRelayIff` says exactly what others do to the relay map.
- DkimMigration.DkimService.MigrateToRspamd: an unreadable private key, which the source meets with an unhandled error, is answered like a key that is not RSA; the copies left behind are the same.
- Schema.MigrateSchema: when it fails, what of the statements before the failing one the transaction keeps is not modelled.
- AccountsDb.Database.ListUsers: returns every account once, in no particular order; the order by username matters to no theorem.
- First-boot seeding of the administrator, timestamps of creation and update, token hints, audit records, mail notifications and the OIDC HTTP flow.
- Read-only views (relay list, exclusion list, mailbox list with domains, group members), the field lengths checked by the request schemas, compilation of Sieve filters in the container.
- Fail2ban, LDAP, Dovecot and raw Rspamd override files, queue, TLS, DNS records and environment views, security headers, and the Angular application apart from the version comparison: they would add only easy members.
