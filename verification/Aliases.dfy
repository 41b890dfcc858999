/** The lines of postfix-virtual.cf, `alias target1,target2` (mailbox_service.py), and the relation
    between alias addresses and targets that they stand for. */
module Aliases {
  import opened Text
  import opened Container

  /** Strip, lower and drop the empty pieces of a comma-separated list. */
  function CleanTargets(parts: seq<string>): seq<string> {
    if parts == [] then []
    else if Strip(parts[0]) == "" then CleanTargets(parts[1..])
    else [Normalise(parts[0])] + CleanTargets(parts[1..])
  }

  /** Split an alias line into its source and its targets. */
  function ParseAlias(line: string): (string, seq<string>)
    requires LineOk(line)
  {
    var parts := SplitMax(line, 1);
    assert LStrip(line) == line;
    (Normalise(parts[0]), if |parts| > 1 then CleanTargets(SplitOn(parts[1], ',')) else [])
  }

  function AliasLine(source: string, targets: seq<string>): string {
    source + " " + Join(targets, ',')
  }

  predicate SourceOk(s: string) { s != "" && NoSpace(s) && IsLower(s) }

  predicate TargetOk(t: string) { t != "" && Trimmed(t) && NoBreak(t) && IsLower(t) && ',' !in t }

  predicate TargetsOk(ts: seq<string>) { forall t | t in ts :: TargetOk(t) }

  // ---- What parsing yields, and that printing is parsed back -----------------------------

  lemma {:induction false} CleanTargetsOk(parts: seq<string>)
    requires forall p | p in parts :: NoBreak(p) && ',' !in p
    ensures TargetsOk(CleanTargets(parts))
  {
    if parts != [] {
      assert forall p | p in parts[1..] :: p in parts;
      CleanTargetsOk(parts[1..]);
      var p := parts[0];
      if Strip(p) != "" {
        NormaliseFacts(p);
        LowerFacts(Strip(p));
        NormaliseKeeps(p, ',');
      }
    }
  }

  lemma {:induction false} CleanTargetsIdentity(ts: seq<string>)
    requires TargetsOk(ts)
    ensures CleanTargets(ts) == ts
  {
    if ts != [] {
      assert TargetOk(ts[0]);
      StripTrimmed(ts[0]);
      CleanTargetsIdentity(ts[1..]);
    }
  }

  lemma ParseAliasOk(line: string)
    requires LineOk(line)
    ensures SourceOk(ParseAlias(line).0) && TargetsOk(ParseAlias(line).1)
  {
    assert LStrip(line) == line;
    var i := FirstSpace(line);
    var head, rest := line[..i], line[i..];
    assert i > 0 && NoSpace(head);
    NoSpaceTrimmed(head);
    StripTrimmed(head);
    LowerFacts(head);
    var parts := SplitMax(line, 1);
    assert parts[0] == head;
    if |parts| > 1 {
      assert parts[1] == LStrip(rest);
      assert NoBreak(parts[1]);
      CleanTargetsOk(SplitOn(parts[1], ','));
    }
  }

  lemma {:induction false} JoinFacts(ts: seq<string>)
    requires ts != [] && TargetsOk(ts)
    ensures var j := Join(ts, ','); j != "" && !IsSpace(j[0]) && !IsSpace(j[|j| - 1]) && NoBreak(j)
  {
    assert TargetOk(ts[0]);
    if |ts| > 1 {
      JoinFacts(ts[1..]);
    }
  }

  /** A printed alias line is read back as the source and targets it was printed from. */
  lemma AliasLineRoundTrip(source: string, targets: seq<string>)
    requires SourceOk(source) && targets != [] && TargetsOk(targets)
    ensures LineOk(AliasLine(source, targets))
    ensures ParseAlias(AliasLine(source, targets)) == (source, targets)
  {
    var j := Join(targets, ',');
    JoinFacts(targets);
    NoSpaceTrimmed(source);
    StripTrimmed(source);
    SeparatedLine(source, ' ', j);
    SplitMaxToken(source, ' ', j, 1);
    SplitMaxWhole(j);
    SplitJoin(targets, ',');
    CleanTargetsIdentity(targets);
  }

  // ---- Removing a target -------------------------------------------------------------------

  /** Whether a line forwards the source (any source when None) to the target. */
  predicate Hit(line: string, source: Option<string>, target: string)
    requires LineOk(line)
  {
    var (s, ts) := ParseAlias(line);
    (source.Some? ==> s == source.value) && target in ts
  }

  /** What becomes of one line: kept verbatim, printed anew without the target, or dropped. */
  function Strike(line: string, source: Option<string>, target: string): seq<string>
    requires LineOk(line)
  {
    if !Hit(line, source, target) then [line]
    else
      var (s, ts) := ParseAlias(line);
      var rest := Without(ts, target);
      if rest == [] then [] else [AliasLine(s, rest)]
  }

  function StrikeAll(lines: seq<string>, source: Option<string>, target: string): seq<string>
    requires forall l | l in lines :: LineOk(l)
  {
    if lines == [] then []
    else StrikeAll(lines[..|lines| - 1], source, target) + Strike(lines[|lines| - 1], source, target)
  }

  lemma StrikeNone(lines: seq<string>, source: Option<string>, target: string)
    requires forall l | l in lines :: LineOk(l)
    ensures StrikeAll(lines[..0], source, target) == []
  {}

  lemma StrikeNext(lines: seq<string>, i: nat, source: Option<string>, target: string)
    requires i < |lines| && forall l | l in lines :: LineOk(l)
    ensures StrikeAll(lines[..i + 1], source, target) == StrikeAll(lines[..i], source, target) + Strike(lines[i], source, target)
  {
    hide Strike, LineOk;
    assert lines[..i + 1][..i] == lines[..i];
  }

  /** Each line is kept verbatim, or is read back with the same source and the remaining targets in
      their order, or is dropped because nothing remains. */
  lemma StrikeLine(line: string, source: Option<string>, target: string)
    requires LineOk(line)
    ensures var r := Strike(line, source, target);
      var (s, ts) := ParseAlias(line);
      (forall l | l in r :: LineOk(l)) &&
      (!Hit(line, source, target) ==> r == [line]) &&
      (Hit(line, source, target) ==>
        if Without(ts, target) == [] then r == []
        else |r| == 1 && LineOk(r[0]) && ParseAlias(r[0]) == (s, Without(ts, target)))
  {
    ParseAliasOk(line);
    var (s, ts) := ParseAlias(line);
    if Hit(line, source, target) && Without(ts, target) != [] {
      AliasLineRoundTrip(s, Without(ts, target));
    }
  }

  lemma {:induction false} StrikeAllOk(lines: seq<string>, source: Option<string>, target: string)
    requires forall l | l in lines :: LineOk(l)
    ensures forall l | l in StrikeAll(lines, source, target) :: LineOk(l)
  {
    if lines != [] {
      var n := |lines| - 1;
      StrikeAllOk(lines[..n], source, target);
      StrikeLine(lines[n], source, target);
    }
  }

  // ---- The relation ---------------------------------------------------------------------------

  function PairsOf(line: string): set<(string, string)>
    requires LineOk(line)
  {
    var (s, ts) := ParseAlias(line);
    set t | t in ts :: (s, t)
  }

  /** Which alias forwards to which target. */
  function Pairs(lines: seq<string>): set<(string, string)>
    requires forall l | l in lines :: LineOk(l)
  {
    if lines == [] then {}
    else Pairs(lines[..|lines| - 1]) + PairsOf(lines[|lines| - 1])
  }

  predicate Struck(p: (string, string), source: Option<string>, target: string) {
    p.1 == target && (source.Some? ==> p.0 == source.value)
  }

  lemma StrikePairs(line: string, source: Option<string>, target: string)
    requires LineOk(line)
    ensures forall l | l in Strike(line, source, target) :: LineOk(l)
    ensures Pairs(Strike(line, source, target)) == set p | p in PairsOf(line) && !Struck(p, source, target)
  {
    hide AliasLine, ParseAlias, Without, Strike, LineOk;
    StrikeLine(line, source, target);
    var r := Strike(line, source, target);
    var (s, ts) := ParseAlias(line);
    var kept := set p | p in PairsOf(line) && !Struck(p, source, target);
    if !Hit(line, source, target) {
      assert Pairs([line]) == PairsOf(line);
      assert kept == PairsOf(line);
    } else if r == [] {
      assert kept == {};
    } else {
      assert Pairs(r) == PairsOf(r[0]);
      assert PairsOf(r[0]) == kept;
    }
  }

  lemma {:induction false} PairsAppend(a: seq<string>, b: seq<string>)
    requires (forall l | l in a :: LineOk(l)) && (forall l | l in b :: LineOk(l))
    ensures Pairs(a + b) == Pairs(a) + Pairs(b)
    decreases |b|
  {
    hide PairsOf;
    if b == [] {
      assert a + b == a;
    } else {
      var n := |b| - 1;
      assert (a + b)[..|a| + n] == a + b[..n];
      PairsAppend(a, b[..n]);
    }
  }

  /** MAIN: deleting an alias removes exactly one pair, removing a target exactly its pairs. */
  lemma {:induction false} StrikeAllPairs(lines: seq<string>, source: Option<string>, target: string)
    requires forall l | l in lines :: LineOk(l)
    ensures forall l | l in StrikeAll(lines, source, target) :: LineOk(l)
    ensures Pairs(StrikeAll(lines, source, target)) == set p | p in Pairs(lines) && !Struck(p, source, target)
  {
    hide Strike, PairsOf;
    StrikeAllOk(lines, source, target);
    if lines != [] {
      var n := |lines| - 1;
      StrikeAllPairs(lines[..n], source, target);
      StrikePairs(lines[n], source, target);
      PairsAppend(StrikeAll(lines[..n], source, target), Strike(lines[n], source, target));
    }
  }

  lemma {:induction false} HitIffPair(lines: seq<string>, source: string, target: string)
    requires forall l | l in lines :: LineOk(l)
    ensures (exists l :: l in lines && Hit(l, Some(source), target)) <==> (source, target) in Pairs(lines)
  {
    hide ParseAlias, LineOk;
    if lines != [] {
      var n := |lines| - 1;
      HitIffPair(lines[..n], source, target);
      assert Hit(lines[n], Some(source), target) <==> (source, target) in PairsOf(lines[n]);
      assert forall l :: l in lines <==> l in lines[..n] || l == lines[n];
    }
  }

  lemma {:induction false} PairsAreOk(lines: seq<string>)
    requires forall l | l in lines :: LineOk(l)
    ensures forall p | p in Pairs(lines) :: SourceOk(p.0) && TargetOk(p.1)
  {
    if lines != [] {
      var n := |lines| - 1;
      PairsAreOk(lines[..n]);
      ParseAliasOk(lines[n]);
    }
  }

  /** MAIN: appending `source target` adds exactly that pair if and only if the source holds no white
      space and the target no comma. */
  lemma AppendAddsPair(lines: seq<string>, source: string, target: string)
    requires forall l | l in lines :: LineOk(l)
    requires source != "" && Trimmed(source) && IsLower(source)
    requires target != "" && Trimmed(target) && NoBreak(target) && IsLower(target)
    ensures Pairs(ReadLines(Unlines(lines + [source + " " + target]))) == Pairs(lines) + {(source, target)}
       <==> NoSpace(source) && ',' !in target
  {
    hide Pairs, Unlines, ReadLines, IsLower, Trimmed, NoBreak, NoSpace;
    var l := source + " " + target;
    if NoSpace(source) && ',' !in target {
      OnePair(source, target);
      ReadUnlines(lines + [l]);
      PairsAppend(lines, [l]);
    } else {
      PairsAreOk(ReadLines(Unlines(lines + [l])));
    }
  }

  lemma OnePair(source: string, target: string)
    requires SourceOk(source) && TargetOk(target)
    ensures LineOk(source + " " + target) && Pairs([source + " " + target]) == {(source, target)}
  {
    hide ParseAlias, LineOk;
    assert Join([target], ',') == target;
    AliasLineRoundTrip(source, [target]);
    var l := source + " " + target;
    assert [l][..0] == [];
    assert PairsOf(l) == {(source, target)};
  }
}
