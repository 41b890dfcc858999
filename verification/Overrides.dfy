/** The Postfix overrides (mailserver_service.py): `key = value` lines of postfix-main.cf and
    `service/type/parameter=value` lines of postfix-master.cf, and the free-form managed files. */
module Overrides {
  import opened Text
  import opened Container

  datatype Kind = Main | Master

  datatype Override = Override(key: string, value: string)

  function Path(kind: Kind): string { if kind.Main? then "postfix-main.cf" else "postfix-master.cf" }

  predicate WordChar(c: char) { 'A' <= c <= 'Z' || 'a' <= c <= 'z' || '0' <= c <= '9' || c == '_' }

  /** A main.cf parameter: letters, digits and underscores. */
  predicate MainKey(key: string) { key != "" && forall j | 0 <= j < |key| :: WordChar(key[j]) }

  /** A master.cf key: a service, its type and a parameter. */
  predicate MasterKey(key: string) {
    var a := IndexOf(key, '/');
    0 < a < |key| && (forall j | 0 <= j < a :: WordChar(key[j]) || key[j] == '.' || key[j] == '-') &&
    var rest := key[a + 1..];
    var b := IndexOf(rest, '/');
    0 < b && b + 1 < |rest| && (forall j | 0 <= j < b :: 'a' <= rest[j] <= 'z') && forall j | b < j < |rest| :: WordChar(rest[j])
  }

  predicate KeyOk(kind: Kind, key: string) { if kind.Main? then MainKey(key) else MasterKey(key) }

  // ---- Reading and writing -----------------------------------------------------------------------

  function ParseOverride(line: string): Option<Override> {
    var i := IndexOf(line, '=');
    if i == |line| || Strip(line[..i]) == "" then None else Some(Override(Strip(line[..i]), Strip(line[i + 1..])))
  }

  function ParseOverrides(lines: seq<string>): seq<Override> {
    if lines == [] then []
    else
      var before := ParseOverrides(lines[..|lines| - 1]);
      match ParseOverride(lines[|lines| - 1])
      case None => before
      case Some(o) => before + [o]
  }

  /** What the listing endpoint returns. */
  function Listed(kind: Kind, files: Files): seq<Override> { ParseOverrides(ReadConfigLines(Read(files, Path(kind)))) }

  /** main.cf is written with spaces around the equals sign, master.cf without. */
  function FormatOverride(kind: Kind, o: Override): string {
    o.key + (if kind.Main? then " = " else "=") + o.value
  }

  function FormatOverrides(kind: Kind, os: seq<Override>): seq<string> {
    seq(|os|, i requires 0 <= i < |os| => FormatOverride(kind, os[i]))
  }

  // ---- Cleaning: an insertion-ordered dictionary ------------------------------------------------

  function Keys(os: seq<Override>): seq<string> { seq(|os|, i requires 0 <= i < |os| => os[i].key) }

  /** `cleaned[key] = value`: replace the value in place, or append. */
  function Put(cleaned: seq<Override>, o: Override): seq<Override> {
    if cleaned == [] then [o]
    else if cleaned[0].key == o.key then [o] + cleaned[1..]
    else [cleaned[0]] + Put(cleaned[1..], o)
  }

  /** Fields trimmed, blank keys dropped. */
  function TrimmedOverrides(os: seq<Override>): seq<Override> {
    if os == [] then []
    else
      var n := |os| - 1;
      var before := TrimmedOverrides(os[..n]);
      if Strip(os[n].key) == "" then before else before + [Override(Strip(os[n].key), Strip(os[n].value))]
  }

  function PutAll(os: seq<Override>): seq<Override> {
    if os == [] then [] else Put(PutAll(os[..|os| - 1]), os[|os| - 1])
  }

  predicate AllKeysOk(kind: Kind, os: seq<Override>) { forall o | o in os :: KeyOk(kind, o.key) }

  /** Replace the whole set: refused when a key is malformed, otherwise written and returned. */
  function SetOverrides(kind: Kind, files: Files, os: seq<Override>): (Files, Result<seq<Override>>) {
    var ts := TrimmedOverrides(os);
    if !AllKeysOk(kind, ts) then (files, BadRequest)
    else (files[Path(kind) := Managed(FormatOverrides(kind, PutAll(ts)))], Ok(PutAll(ts)))
  }

  class OverrideService {
    const dir: ConfigDir

    constructor (dir: ConfigDir)
      ensures this.dir == dir
    {
      this.dir := dir;
    }

    method List(kind: Kind) returns (os: seq<Override>)
      ensures os == Listed(kind, dir.files)
    {
      hide Strip, ReadConfigLines, LineOk, IsComment, IndexOf;
      var content := dir.ReadConfig(Path(kind));
      var lines := ReadConfigLines(content);
      os := [];
      for i := 0 to |lines|
        invariant os == ParseOverrides(lines[..i])
      {
        assert lines[..i + 1][..i] == lines[..i];
        var sep := IndexOf(lines[i], '=');
        var key := Strip(lines[i][..sep]);
        if key != "" && sep < |lines[i]| {
          os := os + [Override(key, Strip(lines[i][sep + 1..]))];
        }
      }
      assert lines[..|lines|] == lines;
    }

    method Set(kind: Kind, os: seq<Override>) returns (r: Result<seq<Override>>)
      modifies dir
      ensures (dir.files, r) == SetOverrides(kind, old(dir.files), os)
    {
      hide Strip, KeyOk, Put, Managed, FormatOverrides;
      var cleaned: seq<Override> := [];
      for i := 0 to |os|
        invariant cleaned == PutAll(TrimmedOverrides(os[..i]))
        invariant AllKeysOk(kind, TrimmedOverrides(os[..i]))
        invariant dir.files == old(dir.files)
      {
        var before := TrimmedOverrides(os[..i]);
        assert os[..i + 1][..i] == os[..i];
        var key := Strip(os[i].key);
        if key == "" { continue; }
        var o := Override(key, Strip(os[i].value));
        assert TrimmedOverrides(os[..i + 1]) == before + [o];
        if !KeyOk(kind, key) {
          TrimmedPrefix(os, i + 1);
          assert o in before + [o];
          return BadRequest;
        }
        assert (before + [o])[..|before|] == before;
        cleaned := Put(cleaned, o);
      }
      assert os[..|os|] == os;
      dir.WriteConfig(Path(kind), Managed(FormatOverrides(kind, cleaned)));
      r := Ok(cleaned);
    }
  }

  lemma {:induction false} TrimmedPrefix(os: seq<Override>, i: nat)
    requires i <= |os|
    ensures forall o | o in TrimmedOverrides(os[..i]) :: o in TrimmedOverrides(os)
    decreases |os| - i
  {
    hide Strip;
    if i == |os| {
      assert os[..i] == os;
    } else {
      TrimmedPrefix(os, i + 1);
      assert os[..i + 1][..i] == os[..i];
    }
  }

  // ---- What cleaning means ----------------------------------------------------------------------------

  /** The distinct keys, each at its first occurrence. */
  function FirstOccurrences(keys: seq<string>): (r: seq<string>)
    ensures forall k :: k in r <==> k in keys
  {
    if keys == [] then []
    else
      var n := |keys| - 1;
      var before := FirstOccurrences(keys[..n]);
      if keys[n] in keys[..n] then before else before + [keys[n]]
  }

  /** The value of the last entry with that key. */
  function LastValue(os: seq<Override>, key: string): string
    requires key in Keys(os)
  {
    var n := |os| - 1;
    if os[n].key == key then os[n].value
    else
      assert forall k | k in Keys(os) && k != os[n].key :: k in Keys(os[..n]) by {
        forall k | k in Keys(os) && k != os[n].key ensures k in Keys(os[..n]) {
          var i :| 0 <= i < |os| && Keys(os)[i] == k;
          assert Keys(os[..n])[i] == k;
        }
      }
      LastValue(os[..n], key)
  }

  lemma KeysCons(o: Override, rest: seq<Override>)
    ensures Keys([o] + rest) == [o.key] + Keys(rest)
    ensures NoRepeat(Keys([o] + rest)) ==> NoRepeat(Keys(rest)) && o.key !in Keys(rest)
  {
    var all := Keys([o] + rest);
    assert all == [o.key] + Keys(rest);
    if NoRepeat(all) {
      forall j | 0 <= j < |rest| ensures Keys(rest)[j] != o.key { assert all[0] != all[j + 1]; }
      forall i, j | 0 <= i < j < |rest| ensures Keys(rest)[i] != Keys(rest)[j] { assert all[i + 1] != all[j + 1]; }
    }
  }

  lemma {:induction false} PutKeys(cleaned: seq<Override>, o: Override)
    ensures Keys(Put(cleaned, o)) == if o.key in Keys(cleaned) then Keys(cleaned) else Keys(cleaned) + [o.key]
  {
    hide Keys, NoRepeat;
    if cleaned == [] {
      KeysCons(o, []);
      assert Keys([]) == [] by { NoKeys(); }
      assert [o] + [] == [o];
    } else {
      var rest := cleaned[1..];
      assert cleaned == [cleaned[0]] + rest;
      KeysCons(cleaned[0], rest);
      if cleaned[0].key == o.key {
        KeysCons(o, rest);
      } else {
        PutKeys(rest, o);
        KeysCons(cleaned[0], Put(rest, o));
      }
    }
  }

  lemma NoKeys()
    ensures Keys([]) == []
  {}

  lemma {:induction false} PutFacts(cleaned: seq<Override>, o: Override)
    requires NoRepeat(Keys(cleaned))
    ensures Keys(Put(cleaned, o)) == if o.key in Keys(cleaned) then Keys(cleaned) else Keys(cleaned) + [o.key]
    ensures forall i | 0 <= i < |Put(cleaned, o)| ::
      Put(cleaned, o)[i] == o || (i < |cleaned| && Put(cleaned, o)[i] == cleaned[i] && cleaned[i].key != o.key)
  {
    PutKeys(cleaned, o);
    if cleaned != [] {
      hide NoRepeat;
      var rest := cleaned[1..];
      assert cleaned == [cleaned[0]] + rest;
      KeysCons(cleaned[0], rest);
      if cleaned[0].key == o.key {
        forall i | 0 <= i < |rest| ensures rest[i].key != o.key { assert Keys(rest)[i] in Keys(rest); }
      } else {
        PutFacts(rest, o);
      }
    }
  }

  /** MAIN: cleaning keeps one entry per key, at its first position and with its last value. */
  lemma {:induction false} PutAllMeans(os: seq<Override>)
    ensures NoRepeat(Keys(PutAll(os)))
    ensures Keys(PutAll(os)) == FirstOccurrences(Keys(os))
    ensures forall i | 0 <= i < |PutAll(os)| :: PutAll(os)[i].key in Keys(os) && PutAll(os)[i].value == LastValue(os, PutAll(os)[i].key)
  {
    hide Put;
    if os != [] {
      var n := |os| - 1;
      var o, before := os[n], PutAll(os[..n]);
      PutAllMeans(os[..n]);
      PutFacts(before, o);
      assert Keys(os)[..n] == Keys(os[..n]);
      assert Keys(os)[n] == o.key;
      var after := PutAll(os);
      forall i | 0 <= i < |after| ensures after[i].key in Keys(os) && after[i].value == LastValue(os, after[i].key) {
        if after[i] != o {
          assert before[i].key in Keys(os[..n]);
          assert Keys(os[..n])[..] == Keys(os)[..n];
        }
      }
    }
  }

  lemma {:induction false} PutAllNew(os: seq<Override>)
    requires NoRepeat(Keys(os))
    ensures PutAll(os) == os
  {
    if os != [] {
      hide Put;
      var n := |os| - 1;
      var init, keys := os[..n], Keys(os);
      assert Keys(init) == keys[..n];
      PutAllNew(init);
      forall i | 0 <= i < n ensures init[i].key != os[n].key { assert keys[i] != keys[n]; }
      PutAppends(init, os[n]);
      assert os == init + [os[n]];
    }
  }

  lemma {:induction false} PutAppends(cleaned: seq<Override>, o: Override)
    requires forall i | 0 <= i < |cleaned| :: cleaned[i].key != o.key
    ensures Put(cleaned, o) == cleaned + [o]
  {
    if cleaned != [] {
      PutAppends(cleaned[1..], o);
    }
  }

  // ---- Reading back --------------------------------------------------------------------------------------

  lemma KeyFacts(kind: Kind, key: string)
    requires KeyOk(kind, key)
    ensures key != "" && NoSpace(key) && '=' !in key && key[0] != '#'
  {
    if kind.Master? {
      var a := IndexOf(key, '/');
      var rest := key[a + 1..];
      var b := IndexOf(rest, '/');
      forall j | 0 <= j < |key| ensures !IsSpace(key[j]) && key[j] != '=' {
        if j > a { assert key[j] == rest[j - a - 1]; }
      }
    }
  }

  lemma OverrideRoundTrip(kind: Kind, o: Override)
    requires KeyOk(kind, o.key) && Trimmed(o.value) && NoBreak(o.value)
    ensures var l := FormatOverride(kind, o);
      NoBreak(l) && Strip(l) != "" && !IsComment(Strip(l)) && ParseOverride(Strip(l)) == Some(o)
  {
    hide KeyOk, Strip, IndexOf, Trimmed, NoBreak, NoSpace;
    KeyFacts(kind, o.key);
    NoSpaceTrimmed(o.key);
    var pad := if kind.Main? then " " else "";
    var tail := if o.value == "" then "" else pad + o.value;
    var core := (o.key + pad) + ['='] + tail;
    var ws := if o.value == "" then pad else "";
    assert FormatOverride(kind, o) == core + ws;
    TailFacts(pad, o.value, tail);
    FormatNoBreak(o.key, pad, tail, ws);
    CoreTrimmed(o.key, pad, tail);
    StripDropsTail(core, ws);
    StripTrimmed(core);
    CoreParse(o.key, pad, tail, o.value);
    assert core[0] == o.key[0];
  }

  lemma TailFacts(pad: string, value: string, tail: string)
    requires (pad == " " || pad == "") && Trimmed(value) && NoBreak(value) && tail == (if value == "" then "" else pad + value)
    ensures NoBreak(tail) && (tail == "" || !IsSpace(tail[|tail| - 1])) && Strip(tail) == value && NoBreak(pad)
  {
    hide Strip;
    StripTrimmed("");
    if value != "" {
      StripMiddle(pad, value, "");
      assert pad + value + "" == tail;
      assert tail[|tail| - 1] == value[|value| - 1];
      assert forall i | 0 <= i < |tail| :: tail[i] == if i < |pad| then pad[i] else value[i - |pad|];
    }
  }

  lemma CoreParse(key: string, pad: string, tail: string, value: string)
    requires (pad == " " || pad == "") && key != "" && Trimmed(key) && '=' !in key && Strip(tail) == value
    ensures ParseOverride((key + pad) + ['='] + tail) == Some(Override(key, value))
  {
    hide Strip, IndexOf, Trimmed;
    assert '=' !in key + pad;
    PartitionAt(key + pad, '=', tail);
    assert AllSpace(pad);
    StripMiddle("", key, pad);
    assert "" + key + pad == key + pad;
  }

  lemma CoreTrimmed(key: string, pad: string, tail: string)
    requires key != "" && NoSpace(key) && (tail == "" || !IsSpace(tail[|tail| - 1]))
    ensures Trimmed((key + pad) + ['='] + tail)
  {
    var core := (key + pad) + ['='] + tail;
    assert core[0] == key[0] && core[|core| - 1] == if tail == "" then '=' else tail[|tail| - 1];
  }

  lemma FormatNoBreak(key: string, pad: string, tail: string, ws: string)
    requires NoBreak(key) && NoBreak(pad) && NoBreak(tail) && NoBreak(ws)
    ensures NoBreak((key + pad) + ['='] + tail + ws)
  {
    var l := (key + pad) + ['='] + tail + ws;
    var a := key + pad;
    assert forall i | 0 <= i < |l| :: l[i] == if i < |a| then a[i] else if i == |a| then '='
      else if i < |a| + 1 + |tail| then tail[i - |a| - 1] else ws[i - |a| - 1 - |tail|];
  }

  predicate Cleaned(kind: Kind, os: seq<Override>) {
    NoRepeat(Keys(os)) && forall o | o in os :: KeyOk(kind, o.key) && Trimmed(o.value)
  }

  lemma {:induction false} ParseFormatted(kind: Kind, os: seq<Override>)
    requires forall o | o in os :: KeyOk(kind, o.key) && Trimmed(o.value) && NoBreak(o.value)
    ensures forall l | l in FormatOverrides(kind, os) :: NoBreak(l) && Strip(l) != "" && !IsComment(Strip(l))
    ensures ParseOverrides(StripLines(FormatOverrides(kind, os))) == os
  {
    hide FormatOverride, ParseOverride, KeyOk, Trimmed, NoBreak, Strip, IsComment;
    if os != [] {
      var n := |os| - 1;
      assert os[n] in os;
      OverrideRoundTrip(kind, os[n]);
      ParseFormatted(kind, os[..n]);
      var lines := FormatOverrides(kind, os);
      assert lines[..n] == FormatOverrides(kind, os[..n]);
      assert StripLines(lines)[..n] == StripLines(lines[..n]);
      assert os == os[..n] + [os[n]];
    }
  }

  lemma {:induction false} ParsedFitOneLine(lines: seq<string>)
    requires forall l | l in lines :: LineOk(l)
    ensures forall o | o in ParseOverrides(lines) :: NoBreak(o.value)
  {
    if lines != [] {
      var n := |lines| - 1;
      ParsedFitOneLine(lines[..n]);
      var l := lines[n];
      assert LineOk(l);
      var i := IndexOf(l, '=');
      if i < |l| { assert NoBreak(l[i + 1..]); }
      hide Strip;
    }
  }

  lemma {:induction false} TrimmedAreTrimmed(os: seq<Override>)
    ensures forall o | o in TrimmedOverrides(os) :: o.key != "" && Trimmed(o.key) && Trimmed(o.value)
  {
    if os != [] {
      TrimmedAreTrimmed(os[..|os| - 1]);
      hide Strip;
    }
  }

  lemma SetIsCleaned(kind: Kind, files: Files, os: seq<Override>)
    requires SetOverrides(kind, files, os).1.Ok?
    ensures Cleaned(kind, SetOverrides(kind, files, os).1.value)
  {
    hide KeyOk, Trimmed;
    var ts := TrimmedOverrides(os);
    TrimmedAreTrimmed(os);
    PutAllMeans(ts);
    PutAllMembers(ts);
  }

  lemma {:induction false} PutAllMembers(os: seq<Override>)
    ensures forall o | o in PutAll(os) :: o in os
  {
    if os != [] {
      var n := |os| - 1;
      PutAllMembers(os[..n]);
      PutMembers(PutAll(os[..n]), os[n]);
    }
  }

  lemma {:induction false} PutMembers(cleaned: seq<Override>, o: Override)
    ensures forall p | p in Put(cleaned, o) :: p == o || p in cleaned
  {
    if cleaned != [] { PutMembers(cleaned[1..], o); }
  }

  /** Request entry i has a key and is the last one for it. */
  predicate LastAt(os: seq<Override>, i: int)
    requires 0 <= i < |os|
  {
    Strip(os[i].key) != "" && forall j | i < j < |os| :: Strip(os[j].key) != Strip(os[i].key)
  }

  function TrimmedOverride(o: Override): Override { Override(Strip(o.key), Strip(o.value)) }

  lemma {:induction false} PutIff(cleaned: seq<Override>, o: Override, p: Override)
    requires NoRepeat(Keys(cleaned))
    ensures p in Put(cleaned, o) <==> p == o || (p in cleaned && p.key != o.key)
  {
    if cleaned != [] {
      var rest := cleaned[1..];
      assert cleaned == [cleaned[0]] + rest;
      assert Keys(rest) == Keys(cleaned)[1..];
      PutIff(rest, o, p);
      if p in rest {
        var i :| 0 <= i < |rest| && rest[i] == p;
        assert Keys(cleaned)[0] != Keys(cleaned)[i + 1];
      }
    }
  }

  /** The request ends up giving a key this value. */
  predicate IsLast(os: seq<Override>, p: Override) { exists i | 0 <= i < |os| :: LastAt(os, i) && p == TrimmedOverride(os[i]) }

  lemma LastAtInit(os: seq<Override>, i: nat)
    requires i < |os| - 1
    ensures LastAt(os, i) <==> LastAt(os[..|os| - 1], i) && Strip(os[i].key) != Strip(os[|os| - 1].key)
  {
    hide Strip;
    var init := os[..|os| - 1];
    assert init[i] == os[i];
    if LastAt(os, i) {
      forall j | i < j < |init| ensures Strip(init[j].key) != Strip(init[i].key) { assert init[j] == os[j]; }
    }
    if LastAt(init, i) && Strip(os[i].key) != Strip(os[|os| - 1].key) {
      forall j | i < j < |os| ensures Strip(os[j].key) != Strip(os[i].key) { if j < |init| { assert os[j] == init[j]; } }
    }
  }

  lemma IsLastOneMore(os: seq<Override>, p: Override)
    requires os != []
    ensures var n := |os| - 1;
      IsLast(os, p) <==> if Strip(os[n].key) == "" then IsLast(os[..n], p)
        else p == TrimmedOverride(os[n]) || (IsLast(os[..n], p) && p.key != Strip(os[n].key))
  {
    hide Strip, LastAt;
    var n := |os| - 1;
    var init := os[..n];
    forall i | 0 <= i < n
      ensures init[i] == os[i] && (LastAt(os, i) <==> LastAt(init, i) && Strip(os[i].key) != Strip(os[n].key)) {
      LastAtInit(os, i);
    }
    forall i | 0 <= i < |os| && LastAt(os, i) ensures Strip(os[i].key) != "" { LastHasKey(os, i); }
    forall i | 0 <= i < n && LastAt(init, i) ensures Strip(init[i].key) != "" { LastHasKey(init, i); }
    if Strip(os[n].key) != "" { NewestIsLast(os); }
    if IsLast(init, p) {
      var i :| 0 <= i < n && LastAt(init, i) && p == TrimmedOverride(init[i]);
      assert p.key == Strip(os[i].key);
    }
  }

  lemma LastHasKey(os: seq<Override>, i: nat)
    requires i < |os| && LastAt(os, i)
    ensures Strip(os[i].key) != ""
  {}

  lemma NewestIsLast(os: seq<Override>)
    requires os != [] && Strip(os[|os| - 1].key) != ""
    ensures LastAt(os, |os| - 1)
  {}

  /** What is written for a request: its last entry for every key, trimmed. */
  lemma {:induction false} CleanedAreLast(os: seq<Override>, p: Override)
    ensures p in PutAll(TrimmedOverrides(os)) <==> IsLast(os, p)
  {
    hide Strip, Put, NoRepeat, IsLast;
    if os == [] {
      NothingIsLast(p);
    } else {
      var n := |os| - 1;
      CleanedAreLast(os[..n], p);
      IsLastOneMore(os, p);
      var before := TrimmedOverrides(os[..n]);
      if Strip(os[n].key) != "" {
        var x := TrimmedOverride(os[n]);
        assert (before + [x])[..|before|] == before;
        PutAllMeans(before);
        PutIff(PutAll(before), x, p);
      }
    }
  }

  lemma NothingIsLast(p: Override)
    ensures !IsLast([], p)
  {}

  /** MAIN: after the overrides are set, listing returns exactly the cleaned ones if and only if the last value
      the request gives to each key, trimmed, fits on one line. */
  lemma ListAfterSetIff(kind: Kind, files: Files, os: seq<Override>)
    requires SetOverrides(kind, files, os).1.Ok?
    ensures var (files1, r) := SetOverrides(kind, files, os);
      Listed(kind, files1) == r.value <==> forall i | 0 <= i < |os| && LastAt(os, i) :: NoBreak(Strip(os[i].value))
  {
    hide KeyOk, PutAll, TrimmedOverrides, ParseOverrides, Managed, ReadConfigLines, Strip, NoBreak, Trimmed, FormatOverride, LastAt;
    var (files1, r) := SetOverrides(kind, files, os);
    var cleaned := r.value;
    SetIsCleaned(kind, files, os);
    ParsedFitOneLine(ReadConfigLines(Read(files1, Path(kind))));
    forall p ensures p in cleaned <==> IsLast(os, p) { CleanedAreLast(os, p); }
    if forall i | 0 <= i < |os| && LastAt(os, i) :: NoBreak(Strip(os[i].value)) {
      assert forall o | o in cleaned :: NoBreak(o.value);
      ParseFormatted(kind, cleaned);
      ReadManagedStripped(FormatOverrides(kind, cleaned));
    } else {
      var i :| 0 <= i < |os| && LastAt(os, i) && !NoBreak(Strip(os[i].value));
      assert TrimmedOverride(os[i]) in cleaned;
    }
  }

  /** For instance a value of two lines is not the one listed. */
  lemma TwoLineValueIsLost(files: Files)
    ensures var (files1, r) := SetOverrides(Main, files, [Override("k", "x\ny")]);
      r == Ok([Override("k", "x\ny")]) && Listed(Main, files1) != r.value
  {
    hide *;
    var o := Override("k", "x\ny");
    SetOne(files, o);
    ListAfterSetIff(Main, files, [o]);
    TwoLines();
    assert [o][0] == o;
  }

  lemma SetOne(files: Files, o: Override)
    requires o == Override("k", "x\ny")
    ensures SetOverrides(Main, files, [o]).1 == Ok([o]) && LastAt([o], 0) && Strip(o.value) == o.value
  {
    hide Strip, KeyOk, Managed, FormatOverrides, PutAll, TrimmedOverrides, Trimmed;
    TwoLines();
    StripTrimmed("k");
    StripTrimmed("x\ny");
    TrimmedOne(o);
    PutOne(o);
    OneLetterKey();
  }

  lemma TrimmedOne(o: Override)
    requires Strip(o.key) == o.key != "" && Strip(o.value) == o.value
    ensures TrimmedOverrides([o]) == [o]
  {
    hide Strip;
    assert [o][..0] == [] && TrimmedOverrides([]) == [];
  }

  lemma PutOne(o: Override)
    ensures PutAll([o]) == [o]
  {
    assert [o][..0] == [] && PutAll([]) == [];
  }

  lemma OneLetterKey()
    ensures KeyOk(Main, "k")
  {}

  lemma TwoLines()
    ensures !NoBreak("x\ny") && Trimmed("x\ny") && Trimmed("k")
  {
    assert "x\ny"[1] == '\n';
  }

  /** MAIN: setting the overrides that a set returned changes nothing. */
  lemma SetAgain(kind: Kind, files: Files, os: seq<Override>)
    requires SetOverrides(kind, files, os).1.Ok?
    ensures var (files1, r) := SetOverrides(kind, files, os);
      SetOverrides(kind, files1, r.value) == (files1, r)
  {
    hide PutAll, TrimmedOverrides, Managed, FormatOverrides, KeyOk, Keys, Trimmed, NoRepeat;
    var (files1, r) := SetOverrides(kind, files, os);
    SetIsCleaned(kind, files, os);
    TrimmedIdentity(kind, r.value);
    PutAllNew(r.value);
    assert files1[Path(kind) := files1[Path(kind)]] == files1;
  }

  lemma {:induction false} TrimmedIdentity(kind: Kind, os: seq<Override>)
    requires forall o | o in os :: KeyOk(kind, o.key) && Trimmed(o.value)
    ensures TrimmedOverrides(os) == os
  {
    hide Strip, KeyOk, Trimmed, NoSpace;
    if os != [] {
      var n := |os| - 1;
      assert os[n] in os;
      TrimmedIdentity(kind, os[..n]);
      KeyFacts(kind, os[n].key);
      NoSpaceTrimmed(os[n].key);
      StripTrimmed(os[n].key);
      StripTrimmed(os[n].value);
      assert os == os[..n] + [os[n]];
    }
  }

  // ---- Free-form managed files ------------------------------------------------------------------------------

  /** A managed file without its header, stripped. */
  function ReadBody(text: string): string {
    Strip(if StartsWith(text, MANAGED_HEADER) then text[|MANAGED_HEADER|..] else text)
  }

  function WriteBody(content: string): string {
    if Strip(content) == "" then MANAGED_HEADER else MANAGED_HEADER + (Strip(content) + "\n")
  }

  /** Whatever the content, even one that opens with a header of its own, it is read back stripped. */
  lemma BodyRoundTrip(content: string)
    ensures ReadBody(WriteBody(content)) == Strip(content)
  {
    var b := Strip(content);
    if b == "" {
      assert MANAGED_HEADER[|MANAGED_HEADER|..] == "";
    } else {
      var t := WriteBody(content);
      assert t[..|MANAGED_HEADER|] == MANAGED_HEADER && t[|MANAGED_HEADER|..] == b + "\n";
      StripDropsTail(b, "\n");
      StripTrimmed(b);
    }
    hide Strip, MANAGED_HEADER;
  }

  /** What is written is the header, then the content without white space around it and one newline, if there is any;
      so writing what was read writes the same text again. */
  lemma BodyIsCanonical(content: string)
    ensures WriteBody(ReadBody(WriteBody(content))) == WriteBody(content)
    ensures WriteBody(content) == MANAGED_HEADER <==> AllSpace(content)
    ensures !AllSpace(content) ==> exists pre, body, post ::
      content == pre + body + post && AllSpace(pre) && AllSpace(post) && Trimmed(body) && WriteBody(content) == MANAGED_HEADER + (body + "\n")
  {
    hide MANAGED_HEADER, ReadBody;
    BodyRoundTrip(content);
    StripTrimmed(Strip(content));
    var pre, post := StripParts(content);
    hide Strip;
    if Strip(content) == "" {
      assert content == pre + post;
    } else {
      var body := Strip(content);
      assert content[|pre|] == body[0] && !IsSpace(body[0]);
      assert |WriteBody(content)| > |MANAGED_HEADER|;
    }
  }
}
