/** What one more log line adds to the mail statistics, in terms of the text of the line. */
module LogLines {
  import opened Text
  import opened Container
  import opened MailStats

  // ---- The text of a line --------------------------------------------------------------------------------

  /** The line holds the text. */
  ghost predicate Holds(line: string, text: string) { exists pre, post :: line == pre + text + post }

  /** ... with no letter, digit or underscore next to it. */
  ghost predicate HoldsWord(line: string, word: string) {
    exists pre, post :: line == pre + word + post && NoWordAround(pre, post)
  }

  predicate InWord(c: char) { 'A' <= c <= 'Z' || 'a' <= c <= 'z' || '0' <= c <= '9' || c == '_' }

  predicate NoWordAround(pre: string, post: string) { (pre == "" || !InWord(pre[|pre| - 1])) && (post == "" || !InWord(post[0])) }

  lemma HasIff(line: string, text: string)
    ensures Has(line, text) <==> Holds(line, text)
  {
    if i: nat :| i <= |line| && At(line, text, i) { assert line == line[..i] + text + line[i + |text|..]; }
    if pre, post :| line == pre + text + post { assert At(line, text, |pre|); }
  }

  lemma WordFound(line: string, word: string, i: nat)
    requires i <= |line| && At(line, word, i) && (i == 0 || !IsWord(line[i - 1])) && (i + |word| == |line| || !IsWord(line[i + |word|]))
    ensures HoldsWord(line, word)
  {
    var pre, post := line[..i], line[i + |word|..];
    assert line == pre + word + post;
    assert pre != "" ==> pre[|pre| - 1] == line[i - 1];
    assert post != "" ==> post[0] == line[i + |word|];
    assert NoWordAround(pre, post);
  }

  lemma WordParts(pre: string, word: string, post: string)
    requires NoWordAround(pre, post)
    ensures HasWord(pre + word + post, word)
  {
    var line := pre + word + post;
    assert At(line, word, |pre|);
    assert pre != "" ==> line[|pre| - 1] == pre[|pre| - 1];
    assert post != "" ==> line[|pre| + |word|] == post[0];
  }

  lemma HasWordIff(line: string, word: string)
    ensures HasWord(line, word) <==> HoldsWord(line, word)
  {
    hide IsWord;
    if HasWord(line, word) {
      var i: nat :| i <= |line| && At(line, word, i) && (i == 0 || !IsWord(line[i - 1])) && (i + |word| == |line| || !IsWord(line[i + |word|]));
      WordFound(line, word, i);
    } else if HoldsWord(line, word) {
      var pre, post :| line == pre + word + post && NoWordAround(pre, post);
      WordParts(pre, word, post);
    }
  }

  /** What follows the first `message-id=` that something visible follows: up to the closing chevron if it opens with
      one and is closed, else up to the next white space. */
  function IdIn(rest: string): string
    requires rest != ""
  {
    if rest[0] == '<' && '>' in rest then rest[..IndexOf(rest, '>') + 1] else rest[..FirstSpace(rest)]
  }

  /** The text opens with `message-id=` and something visible. */
  predicate OpensId(s: string) { |s| > 11 && s[..11] == "message-id=" && !IsSpace(s[11]) }

  ghost predicate HasId(line: string, id: string) {
    exists n: nat :: n <= |line| && OpensId(line[n..]) && (forall m | 0 <= m < n :: !OpensId(line[m..])) && id == IdIn(line[n..][11..])
  }

  lemma {:induction false} MessageIdIff(line: string, id: string)
    ensures MessageId(line) == Some(id) <==> HasId(line, id)
  {
    assert line[0..] == line;
    if OpensId(line) {
      NotInIndexOf(line[11..], '>');
      assert OpensId(line[0..]);
    } else if |line| > 11 {
      MessageIdIff(line[1..], id);
      assert forall m | 1 <= m <= |line| :: line[m..] == line[1..][m - 1..];
      if n: nat :| n <= |line[1..]| && OpensId(line[1..][n..]) && (forall m | 0 <= m < n :: !OpensId(line[1..][m..])) && id == IdIn(line[1..][n..][11..]) {
        assert line[n + 1..] == line[1..][n..];
        forall m | 0 <= m < n + 1 ensures !OpensId(line[m..]) { if m > 0 { assert line[m..] == line[1..][m - 1..]; } }
      }
      if n: nat :| n <= |line| && OpensId(line[n..]) && (forall m | 0 <= m < n :: !OpensId(line[m..])) && id == IdIn(line[n..][11..]) {
        assert n > 0 && line[n..] == line[1..][n - 1..];
        forall m | 0 <= m < n - 1 ensures !OpensId(line[1..][m..]) { assert line[m + 1..] == line[1..][m..]; }
      }
    }
  }

  // ---- What the line adds ----------------------------------------------------------------------------------

  /** The line is dated, not before the start of the window. */
  predicate InWindow(w: Window, line: string) { w.stamp(line).Some? && w.stamp(line).value >= w.cutoff }

  ghost predicate Settled(line: string) { Holds(line, "status=sent") || Holds(line, "status=deferred") || Holds(line, "status=bounced") }

  ghost predicate Refused(line: string) { !Settled(line) && (Holds(line, " reject: ") || Holds(line, "milter-reject:")) }

  ghost predicate OnlyDelayed(line: string) {
    Holds(Lower(line), "greylist") || Holds(Lower(line), "postgrey") || Holds(Lower(line), "try again later")
  }

  /** A line of the window that accepts a message under this id. */
  ghost predicate AcceptsUnder(w: Window, line: string, id: string) {
    InWindow(w, line) && !Settled(line) && !Refused(line) && Holds(line, "postfix/cleanup") && HasId(line, id)
  }

  ghost predicate NamesVirus(line: string) { HoldsWord(line, "INFECTED") }

  ghost predicate NamesSpam(line: string) {
    HoldsWord(line, "Blocked SPAM") || HoldsWord(line, "Passed SPAM") || HoldsWord(line, "Blocked SPAMMY") || HoldsWord(line, "Passed SPAMMY") ||
    HoldsWord(line, "Spam message rejected")
  }

  lemma OutcomeIs(line: string)
    ensures OutcomeOf(line) == Sent <==> Holds(line, "status=sent")
    ensures OutcomeOf(line) == Deferred <==> Holds(line, "status=deferred") && !Holds(line, "status=sent")
    ensures OutcomeOf(line) == Bounced <==> Holds(line, "status=bounced") && !Holds(line, "status=sent") && !Holds(line, "status=deferred")
    ensures OutcomeOf(line) == Held <==> Refused(line) && OnlyDelayed(line)
    ensures OutcomeOf(line) == Rejected <==> Refused(line) && !OnlyDelayed(line)
    ensures OutcomeOf(line) == Cleanup <==> !Settled(line) && !Refused(line) && Holds(line, "postfix/cleanup")
  {
    hide Has, Holds;
    HasIff(line, "status=sent");
    HasIff(line, "status=deferred");
    HasIff(line, "status=bounced");
    HasIff(line, " reject: ");
    HasIff(line, "milter-reject:");
    HasIff(line, "postfix/cleanup");
    HasIff(Lower(line), "greylist");
    HasIff(Lower(line), "postgrey");
    HasIff(Lower(line), "try again later");
  }

  lemma NamesAre(line: string)
    ensures Infected(line) <==> NamesVirus(line)
    ensures Spam(line) <==> NamesSpam(line)
  {
    hide HasWord, HoldsWord;
    HasWordIff(line, "INFECTED");
    HasWordIff(line, "Blocked SPAM");
    HasWordIff(line, "Blocked SPAMMY");
    HasWordIff(line, "Passed SPAM");
    HasWordIff(line, "Passed SPAMMY");
    HasWordIff(line, "Spam message rejected");
  }

  lemma AcceptsIff(w: Window, line: string, id: string)
    ensures AcceptsUnder(w, line, id) <==> Inside(w, line) && OutcomeOf(line) == Cleanup && MessageId(line) == Some(id)
  {
    hide OutcomeOf, HasId, MessageId, Settled, Refused, Holds;
    OutcomeIs(line);
    MessageIdIff(line, id);
  }

  function One(b: bool): nat { if b then 1 else 0 }

  /** MAIN: exactly what one more line adds to the counters. A line outside the window is only scanned; inside it,
      the first of the outcomes its text shows is counted, then a virus or else a spam; a message is received when
      the line accepts it under the empty id, or under one that no earlier line of the window was accepted under. */
  lemma LineAdds(w: Window, lines: seq<string>, line: string)
    ensures var a, b := StatsOf(w, lines), StatsOf(w, lines + [line]);
      var inside := InWindow(w, line);
      b.scanned == a.scanned + 1 && b.parsed == (a.parsed || inside) &&
      b.sent == a.sent + One(inside && Holds(line, "status=sent")) &&
      b.deferred == a.deferred + One(inside && Holds(line, "status=deferred") && !Holds(line, "status=sent")) &&
      b.bounced == a.bounced + One(inside && Holds(line, "status=bounced") && !Holds(line, "status=sent") && !Holds(line, "status=deferred")) &&
      b.greylisted == a.greylisted + One(inside && Refused(line) && OnlyDelayed(line)) &&
      b.rejected == a.rejected + One(inside && Refused(line) && !OnlyDelayed(line)) &&
      b.virus == a.virus + One(inside && NamesVirus(line)) &&
      b.spam == a.spam + One(inside && !NamesVirus(line) && NamesSpam(line)) &&
      b.received == a.received +
        One(exists id :: AcceptsUnder(w, line, id) && (id == "<>" || forall l | l in lines :: !AcceptsUnder(w, l, id)))
  {
    hide OutcomeOf, MessageId, Infected, Spam, NamesVirus, NamesSpam, Refused, OnlyDelayed, Holds, Received, AcceptsUnder, HasId, Ids;
    var all, n := lines + [line], |lines|;
    assert all[..n] == lines && all[..n + 1] == all && all[n] == line;
    StatsOneMore(w, all, n);
    OutcomeIs(line);
    NamesAre(line);
    ReceivedOneMore(w, all, n);
    ReceivesIff(w, lines, line);
    StatsReceived(w, lines);
    StatsReceived(w, all);
    hide StatsOf;
  }

  lemma ReceivesIff(w: Window, lines: seq<string>, line: string)
    ensures (exists id :: AcceptsUnder(w, line, id) && (id == "<>" || forall l | l in lines :: !AcceptsUnder(w, l, id))) <==>
      Inside(w, line) && OutcomeOf(line) == Cleanup && MessageId(line).Some? &&
      (MessageId(line).value == NO_ID || MessageId(line).value !in Ids(w, lines))
  {
    hide OutcomeOf, MessageId, Inside, AcceptsUnder;
    forall id ensures AcceptsUnder(w, line, id) <==> Inside(w, line) && OutcomeOf(line) == Cleanup && MessageId(line) == Some(id) { AcceptsIff(w, line, id); }
    forall id, l ensures AcceptsUnder(w, l, id) <==> Inside(w, l) && OutcomeOf(l) == Cleanup && MessageId(l) == Some(id) { AcceptsIff(w, l, id); }
    if MessageId(line).Some? {
      var id := MessageId(line).value;
      assert id != NO_ID ==> (id in Ids(w, lines) <==> exists l :: l in lines && AcceptsUnder(w, l, id));
    }
  }
}
