/** Counting deliveries in the mail log (backend/app/services/mailserver_service.py, get_mail_stats). */
module MailStats {
  import opened Text
  import opened Container

  // ---- Reading one line -----------------------------------------------------------------------------

  predicate At(s: string, sub: string, i: nat) { i + |sub| <= |s| && s[i..i + |sub|] == sub }

  /** Python's `sub in s`. */
  predicate Has(s: string, sub: string) { exists i: nat | i <= |s| :: At(s, sub, i) }

  predicate IsWord(c: char) { 'a' <= c <= 'z' || 'A' <= c <= 'Z' || IsDigit(c) || c == '_' }

  /** The word (which begins and ends with a letter) occurs between word boundaries. */
  predicate HasWord(s: string, word: string) {
    exists i: nat | i <= |s| :: At(s, word, i) && (i == 0 || !IsWord(s[i - 1])) &&
      (i + |word| == |s| || !IsWord(s[i + |word|]))
  }

  predicate Infected(line: string) { HasWord(line, "INFECTED") }

  predicate Spam(line: string) {
    HasWord(line, "Blocked SPAM") || HasWord(line, "Blocked SPAMMY") || HasWord(line, "Passed SPAM") ||
    HasWord(line, "Passed SPAMMY") || HasWord(line, "Spam message rejected")
  }

  predicate Greylisted(line: string) {
    var lowered := Lower(line);
    Has(lowered, "greylist") || Has(lowered, "postgrey") || Has(lowered, "try again later")
  }

  const ID_KEY := "message-id="

  /** The first `message-id=` followed by something that is not white space, with its chevrons if closed. */
  function MessageId(line: string): Option<string> {
    if |line| <= |ID_KEY| then None
    else if line[..|ID_KEY|] == ID_KEY && !IsSpace(line[|ID_KEY|]) then
      var rest := line[|ID_KEY|..];
      var close := IndexOf(rest, '>');
      Some(if rest[0] == '<' && close < |rest| then rest[..close + 1] else rest[..FirstSpace(rest)])
    else MessageId(line[1..])
  }

  /** What became of one delivery attempt. */
  datatype Outcome = Sent | Deferred | Bounced | Held | Rejected | Cleanup | Other

  function OutcomeOf(line: string): Outcome {
    if Has(line, "status=sent") then Sent
    else if Has(line, "status=deferred") then Deferred
    else if Has(line, "status=bounced") then Bounced
    else if Has(line, " reject: ") || Has(line, "milter-reject:") then if Greylisted(line) then Held else Rejected
    else if Has(line, "postfix/cleanup") then Cleanup
    else Other
  }

  /** The timestamp of a line, if it can be read, and the start of the window. */
  datatype Window = Window(stamp: string -> Option<int>, cutoff: int)

  predicate Inside(w: Window, line: string) { w.stamp(line).Some? && w.stamp(line).value >= w.cutoff }

  // ---- What the counters mean --------------------------------------------------------------------------

  datatype Stats = Stats(scanned: nat, parsed: bool, received: nat, sent: nat, deferred: nat, bounced: nat,
                         greylisted: nat, rejected: nat, virus: nat, spam: nat)

  /** The number of lines with a property. */
  function Count(lines: seq<string>, p: string -> bool): nat {
    if lines == [] then 0
    else
      var n := |lines| - 1;
      Count(lines[..n], p) + if p(lines[n]) then 1 else 0
  }

  function Is(w: Window, o: Outcome): string -> bool { l => Inside(w, l) && OutcomeOf(l) == o }

  function IsInside(w: Window): string -> bool { l => Inside(w, l) }

  function IsVirus(w: Window): string -> bool { l => Inside(w, l) && Infected(l) }

  function IsSpam(w: Window): string -> bool { l => Inside(w, l) && !Infected(l) && Spam(l) }

  /** A message accepted under this id. */
  predicate Accepts(w: Window, l: string, id: string) { Is(w, Cleanup)(l) && MessageId(l) == Some(id) }

  const NO_ID := "<>"

  function IsAnonymous(w: Window): string -> bool { l => Accepts(w, l, NO_ID) }

  function Ids(w: Window, lines: seq<string>): set<string> {
    set l | l in lines && Is(w, Cleanup)(l) && MessageId(l).Some? && MessageId(l).value != NO_ID :: MessageId(l).value
  }

  /** Distinct messages: one per id, and every one without an id. */
  function Received(w: Window, lines: seq<string>): nat { |Ids(w, lines)| + Count(lines, IsAnonymous(w)) }

  function StatsOf(w: Window, lines: seq<string>): Stats {
    Stats(|lines|, Count(lines, IsInside(w)) > 0, Received(w, lines),
      Count(lines, Is(w, Sent)), Count(lines, Is(w, Deferred)), Count(lines, Is(w, Bounced)),
      Count(lines, Is(w, Held)), Count(lines, Is(w, Rejected)), Count(lines, IsVirus(w)), Count(lines, IsSpam(w)))
  }

  function Positions(lines: seq<string>, p: string -> bool): set<nat> { set i: nat | i < |lines| && p(lines[i]) }

  /** Counting line by line gives the size of the set of positions. */
  lemma {:induction false} CountIsSize(lines: seq<string>, p: string -> bool)
    ensures Count(lines, p) == |Positions(lines, p)|
  {
    if lines != [] {
      var n := |lines| - 1;
      CountIsSize(lines[..n], p);
      assert Positions(lines, p) == if p(lines[n]) then Positions(lines[..n], p) + {n} else Positions(lines[..n], p);
    }
  }

  // ---- The loop ------------------------------------------------------------------------------------------

  lemma CountOneMore(lines: seq<string>, p: string -> bool, k: nat)
    requires k < |lines|
    ensures Count(lines[..k + 1], p) == Count(lines[..k], p) + if p(lines[k]) then 1 else 0
  {
    assert lines[..k + 1][..k] == lines[..k];
  }

  lemma IdsOneMore(w: Window, lines: seq<string>, k: nat)
    requires k < |lines|
    ensures var l := lines[k];
      Ids(w, lines[..k + 1]) == Ids(w, lines[..k]) +
        if Is(w, Cleanup)(l) && MessageId(l).Some? && MessageId(l).value != NO_ID then {MessageId(l).value} else {}
  {
    hide MessageId, OutcomeOf, Inside;
    assert lines[..k + 1] == lines[..k] + [lines[k]];
  }

  /** One more line, counter by counter. */
  lemma StatsOneMore(w: Window, lines: seq<string>, k: nat)
    requires k < |lines|
    ensures var l, a, b := lines[k], StatsOf(w, lines[..k]), StatsOf(w, lines[..k + 1]);
      a.scanned == k && b.scanned == k + 1 && b.parsed == (a.parsed || Inside(w, l)) &&
      b.sent == a.sent + (if Inside(w, l) && OutcomeOf(l) == Sent then 1 else 0) &&
      b.deferred == a.deferred + (if Inside(w, l) && OutcomeOf(l) == Deferred then 1 else 0) &&
      b.bounced == a.bounced + (if Inside(w, l) && OutcomeOf(l) == Bounced then 1 else 0) &&
      b.greylisted == a.greylisted + (if Inside(w, l) && OutcomeOf(l) == Held then 1 else 0) &&
      b.rejected == a.rejected + (if Inside(w, l) && OutcomeOf(l) == Rejected then 1 else 0) &&
      b.virus == a.virus + (if Inside(w, l) && Infected(l) then 1 else 0) &&
      b.spam == a.spam + (if Inside(w, l) && !Infected(l) && Spam(l) then 1 else 0)
  {
    hide Count, OutcomeOf, Inside, Infected, Spam, Received;
    CountOneMore(lines, IsInside(w), k);
    CountOneMore(lines, Is(w, Sent), k);
    CountOneMore(lines, Is(w, Deferred), k);
    CountOneMore(lines, Is(w, Bounced), k);
    CountOneMore(lines, Is(w, Held), k);
    CountOneMore(lines, Is(w, Rejected), k);
    CountOneMore(lines, IsVirus(w), k);
    CountOneMore(lines, IsSpam(w), k);
  }

  lemma ReceivedOneMore(w: Window, lines: seq<string>, k: nat)
    requires k < |lines|
    ensures var l := lines[k];
      Received(w, lines[..k + 1]) == Received(w, lines[..k]) +
        if Inside(w, l) && OutcomeOf(l) == Cleanup && MessageId(l).Some? &&
           (MessageId(l).value == NO_ID || MessageId(l).value !in Ids(w, lines[..k])) then 1 else 0
  {
    hide Count, OutcomeOf, Inside, MessageId, Ids;
    CountOneMore(lines, IsAnonymous(w), k);
    IdsOneMore(w, lines, k);
    var l, ids := lines[k], Ids(w, lines[..k]);
    if Is(w, Cleanup)(l) && MessageId(l).Some? && MessageId(l).value in ids {
      assert ids + {MessageId(l).value} == ids;
      assert MessageId(l).value != NO_ID by { IdsAreNamed(w, lines[..k]); }
    }
  }

  lemma IdsAreNamed(w: Window, lines: seq<string>)
    ensures NO_ID !in Ids(w, lines)
  {}

  /** MAIN (method): the single pass computes the declared counters. */
  method GetMailStats(output: string, w: Window) returns (stats: Stats)
    ensures stats == StatsOf(w, SplitLines(output))
  {
    hide Count, OutcomeOf, Inside, MessageId, Ids, Infected, Spam, SplitLines, Received, StatsOf, Has, Greylisted;
    var lines := SplitLines(output);
    stats := Stats(0, false, 0, 0, 0, 0, 0, 0, 0, 0);
    var seen: set<string> := {};
    NoLines(w);
    assert lines[..0] == [];
    for k := 0 to |lines|
      invariant stats == StatsOf(w, lines[..k])
      invariant Ids(w, lines[..k]) <= seen && forall id | id in seen :: id == NO_ID || id in Ids(w, lines[..k])
    {
      var line := lines[k];
      StatsOneMore(w, lines, k);
      StatsReceived(w, lines[..k]);
      StatsReceived(w, lines[..k + 1]);
      ReceivedOneMore(w, lines, k);
      IdsOneMore(w, lines, k);
      IdsAreNamed(w, lines[..k]);
      stats := stats.(scanned := stats.scanned + 1);
      if Inside(w, line) {
        stats, seen := CountLine(stats, seen, line);
      }
    }
    assert lines[..|lines|] == lines;
  }

  lemma NoLines(w: Window)
    ensures StatsOf(w, []) == Stats(0, false, 0, 0, 0, 0, 0, 0, 0, 0) && Ids(w, []) == {}
  {}

  lemma StatsReceived(w: Window, lines: seq<string>)
    ensures StatsOf(w, lines).received == Received(w, lines)
  {}

  /** The body of the loop for a line inside the window. */
  method CountLine(before: Stats, known: set<string>, line: string) returns (stats: Stats, seen: set<string>)
    ensures var o := OutcomeOf(line);
      stats == before.(parsed := true,
        sent := before.sent + (if o == Sent then 1 else 0),
        deferred := before.deferred + (if o == Deferred then 1 else 0),
        bounced := before.bounced + (if o == Bounced then 1 else 0),
        greylisted := before.greylisted + (if o == Held then 1 else 0),
        rejected := before.rejected + (if o == Rejected then 1 else 0),
        received := before.received +
          (if o == Cleanup && MessageId(line).Some? && (MessageId(line).value == NO_ID || MessageId(line).value !in known) then 1 else 0),
        virus := before.virus + (if Infected(line) then 1 else 0),
        spam := before.spam + (if !Infected(line) && Spam(line) then 1 else 0))
    ensures seen == known + if OutcomeOf(line) == Cleanup && MessageId(line).Some? then {MessageId(line).value} else {}
  {
    hide Has, Greylisted, MessageId, Infected, Spam;
    stats, seen := before.(parsed := true), known;
    if Has(line, "status=sent") {
      stats := stats.(sent := stats.sent + 1);
    } else if Has(line, "status=deferred") {
      stats := stats.(deferred := stats.deferred + 1);
    } else if Has(line, "status=bounced") {
      stats := stats.(bounced := stats.bounced + 1);
    } else if Has(line, " reject: ") || Has(line, "milter-reject:") {
      if Greylisted(line) {
        stats := stats.(greylisted := stats.greylisted + 1);
      } else {
        stats := stats.(rejected := stats.rejected + 1);
      }
    } else if Has(line, "postfix/cleanup") {
      var id := MessageId(line);
      if id.Some? && (id.value == NO_ID || id.value !in seen) {
        seen := seen + {id.value};
        stats := stats.(received := stats.received + 1);
      }
    }
    if Infected(line) {
      stats := stats.(virus := stats.virus + 1);
    } else if Spam(line) {
      stats := stats.(spam := stats.spam + 1);
    }
  }

  // ---- What the counters promise ----------------------------------------------------------------------------

  lemma {:induction false} ReceivedAtMost(w: Window, lines: seq<string>)
    ensures Received(w, lines) <= Count(lines, Is(w, Cleanup))
  {
    hide OutcomeOf, Inside, MessageId, Ids;
    if lines == [] {
      NoLines(w);
      StatsReceived(w, lines);
    } else {
      hide Received;
      var n := |lines| - 1;
      ReceivedAtMost(w, lines[..n]);
      ReceivedOneMore(w, lines, n);
      assert lines[..n + 1] == lines;
    }
  }

  /** The classes of a line add up. */
  lemma {:induction false} ClassesPartition(w: Window, lines: seq<string>)
    ensures Count(lines, Is(w, Sent)) + Count(lines, Is(w, Deferred)) + Count(lines, Is(w, Bounced)) + Count(lines, Is(w, Held)) +
      Count(lines, Is(w, Rejected)) + Count(lines, Is(w, Cleanup)) + Count(lines, Is(w, Other)) == Count(lines, IsInside(w))
  {
    hide OutcomeOf, Inside;
    if lines != [] { ClassesPartition(w, lines[..|lines| - 1]); }
  }

  lemma {:induction false} CountAtMost(lines: seq<string>, p: string -> bool)
    ensures Count(lines, p) <= |lines|
  {
    if lines != [] { CountAtMost(lines[..|lines| - 1], p); }
  }

  lemma {:induction false} VirusOrSpam(w: Window, lines: seq<string>)
    ensures Count(lines, IsVirus(w)) + Count(lines, IsSpam(w)) <= Count(lines, IsInside(w))
  {
    hide Infected, Spam, Inside;
    if lines != [] { VirusOrSpam(w, lines[..|lines| - 1]); }
  }

  /** MAIN: the outcomes are exclusive: every line in the window is in exactly one of seven classes, no more
      messages are received than cleanup lines were seen, and a line is a virus or a spam but not both. */
  lemma OutcomesPartition(w: Window, lines: seq<string>)
    ensures var s := StatsOf(w, lines);
      s.sent + s.deferred + s.bounced + s.greylisted + s.rejected + Count(lines, Is(w, Cleanup)) + Count(lines, Is(w, Other))
      == Count(lines, IsInside(w)) <= s.scanned
    ensures StatsOf(w, lines).received <= Count(lines, Is(w, Cleanup))
    ensures StatsOf(w, lines).virus + StatsOf(w, lines).spam <= Count(lines, IsInside(w))
  {
    hide Count, Is, IsInside, IsVirus, IsSpam, Received;
    ClassesPartition(w, lines);
    CountAtMost(lines, IsInside(w));
    ReceivedAtMost(w, lines);
    VirusOrSpam(w, lines);
  }

  /** MAIN: an Amavis reinjection (a further cleanup line under a known id) counts nowhere but in the lines
      scanned; a message without an id counts every time. */
  lemma ReinjectionIsNotCounted(w: Window, lines: seq<string>, line: string, id: string)
    requires Accepts(w, line, id) && !Infected(line) && !Spam(line)
    ensures var before, after := StatsOf(w, lines), StatsOf(w, lines + [line]);
      after.received == before.received + if id == NO_ID || id !in Ids(w, lines) then 1 else 0
    ensures StatsOf(w, lines + [line]).(received := 0) == StatsOf(w, lines).(received := 0, scanned := |lines| + 1, parsed := true)
  {
    hide OutcomeOf, Inside, MessageId, Ids, Infected, Spam, Received, Count;
    var all := lines + [line];
    assert all[..|lines|] == lines && all[..|lines| + 1] == all;
    StatsOneMore(w, all, |lines|);
    ReceivedOneMore(w, all, |lines|);
  }

  lemma {:induction false} CountAppend(a: seq<string>, b: seq<string>, p: string -> bool)
    ensures Count(a + b, p) == Count(a, p) + Count(b, p)
  {
    if b == [] {
      assert a + b == a;
    } else {
      var n := |b| - 1;
      assert (a + b)[..|a + b| - 1] == a + b[..n];
      CountAppend(a, b[..n], p);
    }
  }

  function DropAt(s: seq<string>, j: nat): seq<string>
    requires j < |s|
  {
    s[..j] + s[j + 1..]
  }

  lemma DropOne(s: seq<string>, j: nat)
    requires j < |s|
    ensures multiset(DropAt(s, j)) == multiset(s) - multiset{s[j]}
  {
    assert s == s[..j] + [s[j]] + s[j + 1..];
  }

  lemma CountDrop(s: seq<string>, j: nat, p: string -> bool)
    requires j < |s|
    ensures Count(s, p) == Count(DropAt(s, j), p) + if p(s[j]) then 1 else 0
  {
    hide Count;
    var head, last, tail := s[..j], [s[j]], s[j + 1..];
    assert s == head + last + tail;
    CountAppend(head + last, tail, p);
    CountAppend(head, last, p);
    CountAppend(head, tail, p);
    CountSingle(s[j], p);
  }

  lemma CountSingle(l: string, p: string -> bool)
    ensures Count([l], p) == if p(l) then 1 else 0
  {
    assert [l][..0] == [];
  }

  lemma {:induction false} CountPermutes(a: seq<string>, b: seq<string>, p: string -> bool)
    requires multiset(a) == multiset(b)
    ensures Count(a, p) == Count(b, p)
    decreases |a|
  {
    if a == [] {
      assert b == [] by { assert |multiset(b)| == 0; }
    } else {
      hide Count, DropAt;
      assert a[0] in multiset(b);
      var j :| 0 <= j < |b| && b[j] == a[0];
      DropOne(a, 0);
      DropOne(b, j);
      assert |DropAt(a, 0)| < |a| by { Dropped(a, 0); }
      CountPermutes(DropAt(a, 0), DropAt(b, j), p);
      CountDrop(a, 0, p);
      CountDrop(b, j, p);
    }
  }

  lemma Dropped(s: seq<string>, j: nat)
    requires j < |s|
    ensures |DropAt(s, j)| == |s| - 1
  {}

  /** MAIN: the order of the lines does not matter. */
  lemma StatsPermute(w: Window, a: seq<string>, b: seq<string>)
    requires multiset(a) == multiset(b)
    ensures StatsOf(w, a) == StatsOf(w, b)
  {
    hide Count, OutcomeOf, Inside, MessageId, Infected, Spam;
    assert |a| == |multiset(a)| == |multiset(b)| == |b|;
    forall p: string -> bool ensures Count(a, p) == Count(b, p) { CountPermutes(a, b, p); }
    forall l ensures l in a <==> l in b { assert l in multiset(a) <==> l in multiset(b); }
    assert Ids(w, a) == Ids(w, b);
  }

  lemma {:induction false} CountGrows(lines: seq<string>, p: string -> bool, q: string -> bool)
    requires forall l | l in lines && p(l) :: q(l)
    ensures Count(lines, p) <= Count(lines, q)
  {
    if lines != [] {
      var n := |lines| - 1;
      assert lines[n] in lines;
      CountGrows(lines[..n], p, q);
    }
  }

  /** MAIN: a longer window counts at least as much of everything. */
  lemma StatsGrowWithWindow(w: Window, cutoff: int, lines: seq<string>)
    requires cutoff <= w.cutoff
    ensures var a, b := StatsOf(w, lines), StatsOf(Window(w.stamp, cutoff), lines);
      a.scanned == b.scanned && (a.parsed ==> b.parsed) && a.received <= b.received && a.sent <= b.sent && a.deferred <= b.deferred &&
      a.bounced <= b.bounced && a.greylisted <= b.greylisted && a.rejected <= b.rejected && a.virus <= b.virus && a.spam <= b.spam
  {
    hide Count, OutcomeOf, MessageId, Infected, Spam;
    var v := Window(w.stamp, cutoff);
    CountGrows(lines, IsInside(w), IsInside(v));
    CountGrows(lines, IsAnonymous(w), IsAnonymous(v));
    CountGrows(lines, Is(w, Sent), Is(v, Sent));
    CountGrows(lines, Is(w, Deferred), Is(v, Deferred));
    CountGrows(lines, Is(w, Bounced), Is(v, Bounced));
    CountGrows(lines, Is(w, Held), Is(v, Held));
    CountGrows(lines, Is(w, Rejected), Is(v, Rejected));
    CountGrows(lines, IsVirus(w), IsVirus(v));
    CountGrows(lines, IsSpam(w), IsSpam(v));
    SubsetSize(Ids(w, lines), Ids(v, lines));
  }

  /** MAIN: nothing is counted exactly when no line in the window can be dated. */
  lemma ParsedIffDated(w: Window, lines: seq<string>)
    ensures StatsOf(w, lines).parsed <==> exists l :: l in lines && Inside(w, l)
    ensures !StatsOf(w, lines).parsed ==> StatsOf(w, lines) == Stats(|lines|, false, 0, 0, 0, 0, 0, 0, 0, 0)
  {
    hide OutcomeOf, MessageId, Infected, Spam, Count;
    CountSome(lines, IsInside(w));
    OutcomesPartition(w, lines);
  }

  lemma {:induction false} CountSome(lines: seq<string>, p: string -> bool)
    ensures Count(lines, p) > 0 <==> exists l :: l in lines && p(l)
  {
    if lines != [] {
      var n := |lines| - 1;
      CountSome(lines[..n], p);
      assert lines[n] in lines && lines == lines[..n] + [lines[n]];
    }
  }
}
