/** Python string operations the configuration services are written with: strip, lower,
    splitlines, split, partition, join and decimal integers, with Python's own notion of
    white space and of line breaks (they differ: every break is a space, and
    `str.splitlines` breaks on eight characters besides CR and LF). */
module Text {

  // ---- Characters -----------------------------------------------------------

  /** `str.isspace`: what `strip`, `split()` and the regular expression class `\s` use. */
  predicate IsSpace(c: char) {
    var n := c as int;
    9 <= n <= 13 || 28 <= n <= 32 || n == 0x85 || n == 0xA0 || n == 0x1680 ||
    0x2000 <= n <= 0x200A || n == 0x2028 || n == 0x2029 || n == 0x202F || n == 0x205F || n == 0x3000
  }

  /** What `str.splitlines` treats as the end of a line. */
  predicate IsBreak(c: char) {
    var n := c as int;
    10 <= n <= 13 || 28 <= n <= 30 || n == 0x85 || n == 0x2028 || n == 0x2029
  }

  predicate IsDigit(c: char) { '0' <= c <= '9' }

  /** The white space of Python, code point by code point; ten of them end a line. */
  lemma SpacesAre(c: char)
    ensures IsSpace(c) <==> c as int in {
      9, 10, 11, 12, 13, 28, 29, 30, 31, 32, 0x85, 0xA0, 0x1680, 0x2000, 0x2001, 0x2002, 0x2003, 0x2004, 0x2005, 0x2006, 0x2007,
      0x2008, 0x2009, 0x200A, 0x2028, 0x2029, 0x202F, 0x205F, 0x3000}
    ensures IsBreak(c) <==> c as int in {10, 11, 12, 13, 28, 29, 30, 0x85, 0x2028, 0x2029}
  {}

  predicate NoSpace(s: string) { forall i | 0 <= i < |s| :: !IsSpace(s[i]) }

  predicate NoBreak(s: string) { forall i | 0 <= i < |s| :: !IsBreak(s[i]) }

  /** Neither end is a space: what `strip` returns. */
  predicate Trimmed(s: string) {
    s == "" || (!IsSpace(s[0]) && !IsSpace(s[|s| - 1]))
  }

  predicate StartsWith(s: string, prefix: string) {
    |prefix| <= |s| && s[..|prefix|] == prefix
  }

  predicate EndsWith(s: string, suffix: string) {
    |suffix| <= |s| && s[|s| - |suffix|..] == suffix
  }

  // ---- First and last positions ---------------------------------------------

  function IndexOf(s: string, c: char): (i: nat)
    ensures i <= |s|
    ensures forall j | 0 <= j < i :: s[j] != c
    ensures i < |s| ==> s[i] == c
  {
    if s == "" || s[0] == c then 0 else 1 + IndexOf(s[1..], c)
  }

  function FirstBreak(s: string): (i: nat)
    ensures i <= |s|
    ensures forall j | 0 <= j < i :: !IsBreak(s[j])
    ensures i < |s| ==> IsBreak(s[i])
  {
    if s == "" || IsBreak(s[0]) then 0 else 1 + FirstBreak(s[1..])
  }

  function FirstSpace(s: string): (i: nat)
    ensures i <= |s|
    ensures forall j | 0 <= j < i :: !IsSpace(s[j])
    ensures i < |s| ==> IsSpace(s[i])
  {
    if s == "" || IsSpace(s[0]) then 0 else 1 + FirstSpace(s[1..])
  }

  function FirstNonSpace(s: string): (i: nat)
    ensures i <= |s|
    ensures forall j | 0 <= j < i :: IsSpace(s[j])
    ensures i < |s| ==> !IsSpace(s[i])
  {
    if s == "" || !IsSpace(s[0]) then 0 else 1 + FirstNonSpace(s[1..])
  }

  function EndNonSpace(s: string): (i: nat)
    ensures i <= |s|
    ensures forall j | i <= j < |s| :: IsSpace(s[j])
    ensures i > 0 ==> !IsSpace(s[i - 1])
  {
    if s == "" || !IsSpace(s[|s| - 1]) then |s| else EndNonSpace(s[..|s| - 1])
  }

  // ---- strip ----------------------------------------------------------------

  function LStrip(s: string): string { s[FirstNonSpace(s)..] }

  function RStrip(s: string): string { s[..EndNonSpace(s)] }

  function Strip(s: string): (r: string)
    ensures Trimmed(r)
    ensures NoBreak(s) ==> NoBreak(r)
    ensures NoSpace(s) ==> NoSpace(r)
  {
    RStrip(LStrip(s))
  }

  lemma StripTrimmed(s: string)
    requires Trimmed(s)
    ensures Strip(s) == s
  {
    hide IsSpace;
    if s != "" {
      assert FirstNonSpace(s) == 0 && EndNonSpace(s) == |s|;
    }
    assert LStrip(s) == s;
  }

  lemma NoSpaceTrimmed(s: string)
    requires NoSpace(s)
    ensures Trimmed(s) && NoBreak(s)
  {}

  predicate AllSpace(s: string) { forall i | 0 <= i < |s| :: IsSpace(s[i]) }

  /** `strip` finds the trimmed middle between white space. */
  lemma StripMiddle(pre: string, core: string, post: string)
    requires AllSpace(pre) && AllSpace(post) && Trimmed(core)
    ensures Strip(pre + core + post) == core
  {
    var s := pre + core + post;
    if core == "" {
      assert s == pre + post && AllSpace(s);
      assert FirstNonSpace(s) == |s|;
    } else {
      assert s[|pre|] == core[0];
      assert FirstNonSpace(s) == |pre|;
      var t := core + post;
      assert LStrip(s) == t;
      assert t[|core| - 1] == core[|core| - 1];
      assert forall j | |core| <= j < |t| :: t[j] == post[j - |core|];
      assert EndNonSpace(t) == |core|;
    }
  }

  lemma StripParts(s: string) returns (pre: string, post: string)
    ensures AllSpace(pre) && AllSpace(post) && s == pre + Strip(s) + post
  {
    var t := LStrip(s);
    pre, post := s[..FirstNonSpace(s)], t[EndNonSpace(t)..];
  }

  lemma StripDropsTail(s: string, ws: string)
    requires AllSpace(ws)
    ensures Strip(s + ws) == Strip(s)
  {
    hide Strip, Trimmed;
    var pre, post := StripParts(s);
    var core := Strip(s);
    assert s + ws == pre + core + (post + ws);
    assert AllSpace(post + ws);
    StripMiddle(pre, core, post + ws);
  }

  // ---- lower ----------------------------------------------------------------

  /** `str.lower` on ASCII letters. */
  function LowerChar(c: char): (r: char)
    ensures IsSpace(r) <==> IsSpace(c)
    ensures IsBreak(r) <==> IsBreak(c)
  {
    if 'A' <= c <= 'Z' then (c as int + 32) as char else c
  }

  function Lower(s: string): (r: string)
    ensures |r| == |s|
    ensures forall i | 0 <= i < |s| :: r[i] == LowerChar(s[i])
  {
    seq(|s|, i requires 0 <= i < |s| => LowerChar(s[i]))
  }

  /** Each of the 26 capitals, counted from A, becomes its small letter, and nothing else changes. */
  lemma LowerIs(c: char, k: nat)
    requires k < 26
    ensures LowerChar(c) == ('a' as int + k) as char <==> c == ('a' as int + k) as char || c == ('A' as int + k) as char
    ensures c < 'A' || 'Z' < c ==> LowerChar(c) == c
  {}

  predicate IsLower(s: string) { Lower(s) == s }

  /** The normal form of addresses and relay senders. */
  function Normalise(s: string): string { Lower(Strip(s)) }

  lemma LowerFacts(s: string)
    ensures IsLower(Lower(s))
    ensures NoBreak(Lower(s)) <==> NoBreak(s)
    ensures NoSpace(Lower(s)) <==> NoSpace(s)
    ensures Trimmed(Lower(s)) <==> Trimmed(s)
  {
    var r := Lower(s);
    assert Lower(r) == r;
    assert forall i | 0 <= i < |s| :: IsBreak(r[i]) <==> IsBreak(s[i]);
    assert forall i | 0 <= i < |s| :: IsSpace(r[i]) <==> IsSpace(s[i]);
  }

  lemma NormaliseFacts(s: string)
    ensures var r := Normalise(s); Trimmed(r) && IsLower(r) && Normalise(r) == r
  {
    LowerFacts(Strip(s));
    StripTrimmed(Normalise(s));
  }

  // ---- splitlines and the two line readers ----------------------------------

  /** `str.splitlines()`; CR LF is a single break. */
  function SplitLines(s: string): (lines: seq<string>)
    ensures forall l | l in lines :: NoBreak(l)
    decreases |s|
  {
    if s == "" then []
    else
      var i := FirstBreak(s);
      if i == |s| then [s]
      else
        var next := if s[i] == '\r' && i + 1 < |s| && s[i + 1] == '\n' then i + 2 else i + 1;
        [s[..i]] + SplitLines(s[next..])
  }

  /** `"".join(f"{line}\n" for line in lines)`. */
  function Unlines(lines: seq<string>): string {
    if lines == [] then "" else lines[0] + "\n" + Unlines(lines[1..])
  }

  /** The stripped lines that are not blank: `[l.strip() for l in lines if l.strip()]`. */
  function NonBlank(lines: seq<string>): (r: seq<string>)
    ensures forall l | l in r :: l != "" && Trimmed(l)
    ensures (forall l | l in lines :: NoBreak(l)) ==> forall l | l in r :: NoBreak(l)
  {
    if lines == [] then []
    else
      var l := Strip(lines[0]);
      (if l == "" then [] else [l]) + NonBlank(lines[1..])
  }

  predicate IsComment(line: string) { line != "" && line[0] == '#' }

  /** Drop the comment lines of an already stripped list. */
  function DropComments(lines: seq<string>): (r: seq<string>)
    ensures forall l | l in r :: l in lines && !IsComment(l)
  {
    if lines == [] then []
    else (if IsComment(lines[0]) then [] else [lines[0]]) + DropComments(lines[1..])
  }

  /** A line that survives being written and read back. */
  predicate LineOk(l: string) { l != "" && Trimmed(l) && NoBreak(l) }

  /** The lines of a file, stripped, without blanks (mailbox_service._read_lines). */
  function ReadLines(text: string): (lines: seq<string>)
    ensures forall l | l in lines :: LineOk(l)
  {
    NonBlank(SplitLines(text))
  }

  /** ... and without comments (mailserver_service._read_config_lines). */
  function ReadConfigLines(text: string): (lines: seq<string>)
    ensures forall l | l in lines :: LineOk(l) && !IsComment(l)
  {
    DropComments(ReadLines(text))
  }

  /** One complete line followed by anything is read as that line followed by the rest. */
  lemma SplitLinesCons(line: string, rest: string)
    requires NoBreak(line)
    ensures SplitLines(line + "\n" + rest) == [line] + SplitLines(rest)
  {
    var s := line + "\n" + rest;
    assert s[|line|] == '\n';
    assert forall j | 0 <= j < |line| :: s[j] == line[j];
    assert FirstBreak(s) == |line|;
    assert s[..|line|] == line;
    assert s[|line| + 1..] == rest;
  }

  lemma {:induction false} SplitUnlines(lines: seq<string>)
    requires forall l | l in lines :: NoBreak(l)
    ensures SplitLines(Unlines(lines)) == lines
  {
    if lines == [] {
    } else {
      SplitUnlines(lines[1..]);
      SplitLinesCons(lines[0], Unlines(lines[1..]));
    }
  }

  lemma {:induction false} NonBlankIdentity(lines: seq<string>)
    requires forall l | l in lines :: l != "" && Trimmed(l)
    ensures NonBlank(lines) == lines
  {
    if lines == [] {
    } else {
      StripTrimmed(lines[0]);
      assert forall l | l in lines[1..] :: l in lines;
      NonBlankIdentity(lines[1..]);
    }
  }

  lemma {:induction false} DropCommentsIdentity(lines: seq<string>)
    requires forall l | l in lines :: !IsComment(l)
    ensures DropComments(lines) == lines
  {
    if lines == [] {
    } else {
      DropCommentsIdentity(lines[1..]);
    }
  }

  /** Reading a file that was written line by line returns exactly those lines. */
  lemma ReadUnlines(lines: seq<string>)
    requires forall l | l in lines :: LineOk(l)
    ensures ReadLines(Unlines(lines)) == lines
  {
    SplitUnlines(lines);
    NonBlankIdentity(lines);
  }

  /** Two pieces around a separator make a line that survives. */
  lemma SeparatedLine(a: string, sep: char, b: string)
    requires NoBreak(a) && !IsBreak(sep) && NoBreak(b) && b != "" && !IsSpace(b[|b| - 1])
    requires if a == "" then !IsSpace(sep) else !IsSpace(a[0])
    ensures LineOk(a + [sep] + b)
  {
    var l := a + [sep] + b;
    assert l[|l| - 1] == b[|b| - 1] && l[0] == if a == "" then sep else a[0];
    assert forall i | 0 <= i < |l| :: l[i] == if i < |a| then a[i] else if i == |a| then sep else b[i - |a| - 1];
  }

  // ---- entries that hold line breaks themselves -------------------------------

  lemma Regroup<T>(a: seq<T>, b: seq<T>, c: seq<T>)
    ensures (a + b) + c == a + (b + c)
  {}

  lemma NonBlankCons(line: string, rest: seq<string>)
    ensures NonBlank([line] + rest) == NonBlank([line]) + NonBlank(rest)
  {
    hide Strip;
    assert ([line] + rest)[1..] == rest && [line][1..] == [];
  }

  lemma {:induction false} NonBlankAppend(a: seq<string>, b: seq<string>)
    ensures NonBlank(a + b) == NonBlank(a) + NonBlank(b)
  {
    if a == [] {
      assert a + b == b;
    } else {
      hide NonBlank;
      var line, rest := a[0], a[1..];
      assert a == [line] + rest;
      NonBlankAppend(rest, b);
      NonBlankCons(line, rest);
      NonBlankCons(line, rest + b);
      Regroup([line], rest, b);
      Regroup(NonBlank([line]), NonBlank(rest), NonBlank(b));
    }
  }

  lemma {:induction false} DropCommentsAppend(a: seq<string>, b: seq<string>)
    ensures DropComments(a + b) == DropComments(a) + DropComments(b)
  {
    hide IsComment;
    if a == [] {
      assert a + b == b;
    } else {
      assert (a + b)[1..] == a[1..] + b;
      DropCommentsAppend(a[1..], b);
    }
  }

  /** Where the line after the break at position i starts. */
  function AfterBreak(s: string, i: nat): (next: nat)
    requires i < |s|
    ensures i < next <= |s|
  {
    if s[i] == '\r' && i + 1 < |s| && s[i + 1] == '\n' then i + 2 else i + 1
  }

  /** A text is read as its first line followed by the rest. */
  lemma ReadCut(s: string, i: nat)
    requires i < |s| && IsBreak(s[i]) && forall j | 0 <= j < i :: !IsBreak(s[j])
    ensures ReadLines(s) == NonBlank([s[..i]]) + ReadLines(s[AfterBreak(s, i)..])
  {
    hide IsBreak, NonBlank;
    assert FirstBreak(s) == i;
    NonBlankAppend([s[..i]], SplitLines(s[AfterBreak(s, i)..]));
  }

  lemma ReadOneLine(s: string)
    requires NoBreak(s)
    ensures ReadLines(s) == NonBlank([s])
  {
    hide Strip;
    if s == "" { BlankLine(""); }
  }

  lemma BlankLine(l: string)
    requires AllSpace(l)
    ensures NonBlank([l]) == []
  {
    StripMiddle(l, "", "");
    assert l + "" + "" == l;
    assert NonBlank([l][1..]) == [];
  }

  /** Whatever an entry holds, reading it and what follows its newline is reading one after the other. */
  lemma {:induction false} ReadAppend(entry: string, rest: string)
    ensures ReadLines(entry + "\n" + rest) == ReadLines(entry) + ReadLines(rest)
    decreases |entry|
  {
    hide IsBreak, ReadLines, NonBlank, AfterBreak;
    var s, i := entry + "\n" + rest, FirstBreak(entry);
    assert forall j | 0 <= j < i :: s[j] == entry[j];
    if i == |entry| {
      NewlineBreaks();
      ReadCut(s, i);
      NextAfter(s, i);
      ReadOneLine(entry);
      assert s[..i] == entry && s[i + 1..] == rest;
    } else {
      assert s[i] == entry[i] && s[..i] == entry[..i];
      ReadCut(entry, i);
      ReadCut(s, i);
      NextAfter(entry, i);
      NextAfter(s, i);
      var next := AfterBreak(entry, i);
      if AfterBreak(s, i) == next {
        assert s[next..] == entry[next..] + "\n" + rest;
        ReadAppend(entry[next..], rest);
      } else {
        assert next == |entry| && s[AfterBreak(s, i)..] == rest && entry[next..] == "";
        ReadBlank("");
      }
    }
  }

  lemma NewlineBreaks()
    ensures IsBreak('\n')
  {}

  lemma NextAfter(s: string, i: nat)
    requires i < |s|
    ensures AfterBreak(s, i) == if s[i] == '\r' && i + 1 < |s| && s[i + 1] == '\n' then i + 2 else i + 1
  {}

  /** White space, line breaks included, is read as nothing. */
  lemma {:induction false} ReadBlank(ws: string)
    requires AllSpace(ws)
    ensures ReadLines(ws) == []
    decreases |ws|
  {
    hide IsBreak, IsSpace, ReadLines, NonBlank;
    var i := FirstBreak(ws);
    if i == |ws| {
      ReadOneLine(ws);
      BlankLine(ws);
    } else {
      ReadCut(ws, i);
      ReadBlank(ws[AfterBreak(ws, i)..]);
      BlankLine(ws[..i]);
    }
  }

  lemma LinePadded(pre: string, core: string, post: string)
    requires AllSpace(pre) && AllSpace(post) && LineOk(core)
    ensures NonBlank([pre + core + post]) == [core]
  {
    hide Strip;
    StripMiddle(pre, core, post);
    assert NonBlank([pre + core + post][1..]) == [];
  }

  lemma NotNewline(core: string)
    requires LineOk(core)
    ensures core != "" && core[0] != '\n'
  {}

  /** A line followed by white space, line breaks included, is read as that line ... */
  lemma ReadTail(pre: string, core: string, post: string)
    requires AllSpace(pre) && NoBreak(pre) && AllSpace(post) && LineOk(core)
    ensures ReadLines(pre + core + post) == [core]
  {
    hide IsBreak, IsSpace, ReadLines, NonBlank, Trimmed;
    var s, n, k := pre + core + post, |pre| + |core|, FirstBreak(post);
    assert forall j | 0 <= j < n + k :: s[j] == if j < |pre| then pre[j] else if j < n then core[j - |pre|] else post[j - n];
    if k == |post| {
      ReadOneLine(s);
      LinePadded(pre, core, post);
    } else {
      assert s[n + k] == post[k];
      ReadCut(s, n + k);
      var next := AfterBreak(s, n + k);
      assert s[..n + k] == pre + core + post[..k] && s[next..] == post[next - n..];
      ReadBlank(post[next - n..]);
      LinePadded(pre, core, post[..k]);
    }
  }

  /** ... and so is one that follows white space. */
  lemma {:induction false} ReadPadded(pre: string, core: string, post: string)
    requires AllSpace(pre) && AllSpace(post) && LineOk(core)
    ensures ReadLines(pre + core + post) == [core]
    decreases |pre|
  {
    hide IsBreak, IsSpace, ReadLines, NonBlank, LineOk, AfterBreak;
    var s, i := pre + core + post, FirstBreak(pre);
    if i == |pre| {
      ReadTail(pre, core, post);
    } else {
      assert s[i] == pre[i] && forall j | 0 <= j < i :: s[j] == pre[j];
      ReadCut(s, i);
      NextAfter(s, i);
      NotNewline(core);
      assert i + 1 == |pre| ==> s[i + 1] == core[0];
      var next := AfterBreak(s, i);
      assert s[next..] == pre[next..] + core + post && s[..i] == pre[..i];
      ReadPadded(pre[next..], core, post);
      BlankLine(pre[..i]);
    }
  }

  /** What a file yields that was written entry by entry, whatever the entries hold. */
  function Pieces(entries: seq<string>): (lines: seq<string>)
    ensures forall l | l in lines :: LineOk(l) && !IsComment(l)
  {
    if entries == [] then [] else ReadConfigLines(entries[0]) + Pieces(entries[1..])
  }

  lemma {:induction false} ReadEntries(entries: seq<string>)
    ensures ReadConfigLines(Unlines(entries)) == Pieces(entries)
  {
    if entries != [] {
      hide ReadLines, DropComments;
      ReadEntries(entries[1..]);
      ReadAppend(entries[0], Unlines(entries[1..]));
      DropCommentsAppend(ReadLines(entries[0]), ReadLines(Unlines(entries[1..])));
    } else {
      assert SplitLines("") == [];
    }
  }

  lemma {:induction false} PiecesAppend(entries: seq<string>, entry: string)
    ensures Pieces(entries + [entry]) == Pieces(entries) + ReadConfigLines(entry)
  {
    hide ReadConfigLines;
    if entries == [] {
      assert [entry][1..] == [];
    } else {
      assert (entries + [entry])[1..] == entries[1..] + [entry];
      PiecesAppend(entries[1..], entry);
    }
  }

  // ---- the managed header ---------------------------------------------------

  const MANAGED_HEADER_LINE: string := "# Managed by Mailserver UI" + (" \U{2014} manual edits" + " may be overwritten.")
  const MANAGED_HEADER: string := MANAGED_HEADER_LINE + "\n"

  /** The payload of _write_managed. */
  function Managed(lines: seq<string>): string { MANAGED_HEADER + Unlines(lines) }

  lemma HeaderIsOneComment()
    ensures NoBreak(MANAGED_HEADER_LINE) && Trimmed(MANAGED_HEADER_LINE) && IsComment(MANAGED_HEADER_LINE)
  {
    var a, b, c := "# Managed by Mailserver UI", " \U{2014} manual edits", " may be overwritten.";
    assert MANAGED_HEADER_LINE == a + (b + c);
    assert a[0] == '#' && c[|c| - 1] == '.';
    assert NoBreak(a) && NoBreak(b) && NoBreak(c);
  }

  /** Whatever the lines are, the header itself is never read back. */
  lemma ReadManaged(lines: seq<string>)
    ensures ReadConfigLines(Managed(lines)) == ReadConfigLines(Unlines(lines))
  {
    HeaderIsOneComment();
    SplitLinesCons(MANAGED_HEADER_LINE, Unlines(lines));
    StripTrimmed(MANAGED_HEADER_LINE);
    assert NonBlank([MANAGED_HEADER_LINE] + SplitLines(Unlines(lines)))
        == [MANAGED_HEADER_LINE] + ReadLines(Unlines(lines));
    assert ([MANAGED_HEADER_LINE] + ReadLines(Unlines(lines)))[1..] == ReadLines(Unlines(lines));
  }

  lemma ReadManagedLines(lines: seq<string>)
    requires forall l | l in lines :: LineOk(l) && !IsComment(l)
    ensures ReadConfigLines(Managed(lines)) == lines
  {
    ReadManaged(lines);
    ReadUnlines(lines);
    DropCommentsIdentity(lines);
  }

  function StripLines(lines: seq<string>): seq<string> { seq(|lines|, i requires 0 <= i < |lines| => Strip(lines[i])) }

  lemma {:induction false} NonBlankStrips(lines: seq<string>)
    requires forall l | l in lines :: Strip(l) != ""
    ensures NonBlank(lines) == StripLines(lines)
  {
    hide Strip;
    if lines != [] {
      assert forall l | l in lines[1..] :: l in lines;
      NonBlankStrips(lines[1..]);
      assert StripLines(lines) == [Strip(lines[0])] + StripLines(lines[1..]);
    }
  }

  /** Lines that are not stripped yet are read back stripped. */
  lemma ReadManagedStripped(lines: seq<string>)
    requires forall l | l in lines :: NoBreak(l) && Strip(l) != "" && !IsComment(Strip(l))
    ensures ReadConfigLines(Managed(lines)) == StripLines(lines)
  {
    hide Strip, IsComment;
    ReadManaged(lines);
    SplitUnlines(lines);
    NonBlankStrips(lines);
    DropCommentsIdentity(StripLines(lines));
  }

  // ---- split on white space --------------------------------------------------

  /** `s.split(None, n)`: at most n cuts; the last piece keeps its inner and trailing spaces. */
  function SplitMax(s: string, n: nat): (parts: seq<string>)
    ensures |parts| <= n + 1
    decreases n
  {
    var t := LStrip(s);
    if t == "" then []
    else if n == 0 then [t]
    else
      var i := FirstSpace(t);
      [t[..i]] + SplitMax(t[i..], n - 1)
  }

  /** `s.split()`. */
  function SplitAll(s: string): (parts: seq<string>)
    ensures forall p | p in parts :: p != "" && NoSpace(p)
    decreases |s|
  {
    var t := LStrip(s);
    if t == "" then []
    else
      var i := FirstSpace(t);
      assert i > 0;
      [t[..i]] + SplitAll(t[i..])
  }

  lemma LStripSkips(c: char, s: string)
    requires IsSpace(c)
    ensures LStrip([c] + s) == LStrip(s)
  {
    assert ([c] + s)[1..] == s;
  }

  /** A leading token followed by a space is the first piece. */
  lemma TokenThenRest(tok: string, sep: char, rest: string)
    requires tok != "" && NoSpace(tok) && IsSpace(sep)
    ensures var s := tok + [sep] + rest;
      LStrip(s) == s && FirstSpace(s) == |tok| && s[..|tok|] == tok && s[|tok|..] == [sep] + rest
  {
    var s := tok + [sep] + rest;
    assert s[0] == tok[0];
    assert s[|tok|] == sep;
    assert forall j | 0 <= j < |tok| :: s[j] == tok[j];
  }

  lemma SplitMaxToken(tok: string, sep: char, rest: string, n: nat)
    requires tok != "" && NoSpace(tok) && IsSpace(sep) && n > 0
    ensures SplitMax(tok + [sep] + rest, n) == [tok] + SplitMax(rest, n - 1)
  {
    hide *;
    TokenThenRest(tok, sep, rest);
    SplitMaxSkips(sep, rest, n - 1);
    SplitMaxStep(tok + [sep] + rest, tok, [sep] + rest, n);
  }

  lemma SplitMaxStep(s: string, tok: string, tail: string, n: nat)
    requires s != "" && n > 0 && LStrip(s) == s
    requires FirstSpace(s) == |tok| && s[..|tok|] == tok && s[|tok|..] == tail
    ensures SplitMax(s, n) == [tok] + SplitMax(tail, n - 1)
  {
    hide LStrip, FirstSpace;
  }

  lemma SplitMaxSkips(c: char, s: string, n: nat)
    requires IsSpace(c)
    ensures SplitMax([c] + s, n) == SplitMax(s, n)
  {
    LStripSkips(c, s);
    hide LStrip, FirstSpace;
  }

  lemma SplitAllToken(tok: string, sep: char, rest: string)
    requires tok != "" && NoSpace(tok) && IsSpace(sep)
    ensures SplitAll(tok + [sep] + rest) == [tok] + SplitAll(rest)
  {
    TokenThenRest(tok, sep, rest);
    LStripSkips(sep, rest);
    assert SplitAll([sep] + rest) == SplitAll(rest);
  }

  lemma SplitOne(tok: string)
    requires tok != "" && NoSpace(tok)
    ensures SplitAll(tok) == [tok]
    ensures forall n: nat :: SplitMax(tok, n) == [tok]
  {
    assert LStrip(tok) == tok && FirstSpace(tok) == |tok|;
    assert tok[..|tok|] == tok && tok[|tok|..] == "";
    forall n: nat ensures SplitMax(tok, n) == [tok] {
      if n > 0 {
        assert SplitMax("", n - 1) == [];
      }
    }
  }

  /** With no cut left, a piece that starts with a non-space is returned whole. */
  lemma SplitMaxWhole(s: string)
    requires s != "" && !IsSpace(s[0])
    ensures SplitMax(s, 0) == [s]
  {
    assert LStrip(s) == s;
  }

  // ---- split on a character, join ---------------------------------------------

  /** `s.split(c)`: always at least one piece, none of which contains c. */
  function SplitOn(s: string, c: char): (parts: seq<string>)
    ensures |parts| >= 1
    ensures forall p | p in parts :: c !in p
    ensures NoBreak(s) ==> forall p | p in parts :: NoBreak(p)
    decreases |s|
  {
    var i := IndexOf(s, c);
    if i == |s| then [s] else [s[..i]] + SplitOn(s[i + 1..], c)
  }

  /** `c.join(parts)`. */
  function Join(parts: seq<string>, c: char): string {
    if parts == [] then ""
    else if |parts| == 1 then parts[0]
    else parts[0] + [c] + Join(parts[1..], c)
  }

  lemma {:induction false} SplitJoin(parts: seq<string>, c: char)
    requires parts != [] && forall p | p in parts :: c !in p
    ensures SplitOn(Join(parts, c), c) == parts
  {
    var s := Join(parts, c);
    if |parts| == 1 {
      assert s in parts;
      NotInIndexOf(s, c);
    } else {
      assert parts[0] in parts && forall p | p in parts[1..] :: p in parts;
      var rest := Join(parts[1..], c);
      PartitionAt(parts[0], c, rest);
      SplitJoin(parts[1..], c);
    }
  }

  /** `s.partition(c)` on a text that is put together around its first c. */
  lemma PartitionAt(head: string, c: char, tail: string)
    requires c !in head
    ensures var s := head + [c] + tail;
      IndexOf(s, c) == |head| && s[..|head|] == head && s[|head| + 1..] == tail
  {
    var s := head + [c] + tail;
    assert s[|head|] == c;
    assert forall j | 0 <= j < |head| :: s[j] == head[j];
  }

  lemma NotInIndexOf(s: string, c: char)
    ensures IndexOf(s, c) == |s| <==> c !in s
  {
    var i := IndexOf(s, c);
    assert i < |s| ==> s[i] in s;
  }

  /** `key, _, value = s.partition(c)` with the key normalised and the value stripped. */
  function SplitKey(s: string, c: char): (string, string) {
    var i := IndexOf(s, c);
    (Normalise(s[..i]), if i == |s| then "" else Strip(s[i + 1..]))
  }

  /** The cut is at the first separator; without one there is no value. */
  lemma SplitKeyReads(key: string, c: char, value: string)
    requires c !in key
    ensures SplitKey(key + [c] + value, c) == (Normalise(key), Strip(value)) && SplitKey(key, c) == (Normalise(key), "")
  {
    hide Strip, Normalise;
    PartitionAt(key, c, value);
    NotInIndexOf(key, c);
    assert key[..|key|] == key;
  }

  lemma NormaliseKeeps(s: string, c: char)
    requires c !in s && !('a' <= c <= 'z')
    ensures c !in Normalise(s)
  {
    var t := Strip(s);
    assert forall d | d in t :: d in s;
    assert forall i | 0 <= i < |t| :: Lower(t)[i] == LowerChar(t[i]) && t[i] in t;
  }

  lemma SplitKeyOk(s: string, c: char)
    requires NoBreak(s) && !('a' <= c <= 'z')
    ensures var (k, v) := SplitKey(s, c);
      Trimmed(k) && NoBreak(k) && IsLower(k) && c !in k && Trimmed(v) && NoBreak(v)
  {
    var i := IndexOf(s, c);
    var head := s[..i];
    NormaliseFacts(head);
    LowerFacts(Strip(head));
    NormaliseKeeps(head, c);
    if i < |s| { assert NoBreak(s[i + 1..]); }
    hide Normalise, Strip;
  }

  lemma SplitKeyRoundTrip(key: string, c: char, value: string)
    requires Trimmed(key) && IsLower(key) && c !in key && Trimmed(value)
    ensures SplitKey(key + [c] + value, c) == (key, value)
  {
    PartitionAt(key, c, value);
    StripTrimmed(key);
    StripTrimmed(value);
    hide Strip, IndexOf;
  }

  // ---- lists ------------------------------------------------------------------

  predicate NoRepeat(xs: seq<string>) { forall i, j | 0 <= i < j < |xs| :: xs[i] != xs[j] }

  /** `[y for y in xs if y != x]`. */
  function Without(xs: seq<string>, x: string): (r: seq<string>)
    ensures forall y :: y in r <==> y in xs && y != x
  {
    if xs == [] then []
    else
      var n := |xs| - 1;
      if xs[n] == x then Without(xs[..n], x) else Without(xs[..n], x) + [xs[n]]
  }

  // ---- decimal integers -------------------------------------------------------

  predicate AllDigits(s: string) { forall i | 0 <= i < |s| :: IsDigit(s[i]) }

  /** `str(n)`. */
  function PrintNat(n: nat): (s: string)
    ensures s != "" && AllDigits(s)
  {
    var d := [(n % 10 + '0' as int) as char];
    if n < 10 then d else PrintNat(n / 10) + d
  }

  /** `int(s)` on a string of ASCII digits. */
  function ParseNat(s: string): nat
    requires AllDigits(s)
  {
    if s == "" then 0
    else ParseNat(s[..|s| - 1]) * 10 + (s[|s| - 1] as int - '0' as int)
  }

  lemma {:induction false} ParsePrint(n: nat)
    ensures ParseNat(PrintNat(n)) == n
  {
    var s := PrintNat(n);
    if n < 10 {
      assert s[..|s| - 1] == "";
    } else {
      ParsePrint(n / 10);
      assert s[..|s| - 1] == PrintNat(n / 10);
    }
  }

  /** ... and the other way round for digits without a leading zero. */
  lemma {:induction false} PrintParse(s: string)
    requires s != "" && AllDigits(s) && (|s| > 1 ==> s[0] != '0')
    ensures PrintNat(ParseNat(s)) == s && (s[0] != '0' ==> ParseNat(s) > 0)
  {
    var init, last := s[..|s| - 1], s[|s| - 1];
    assert IsDigit(last) && s == init + [last];
    if init == "" {
      assert ParseNat("") == 0;
    } else {
      assert init[0] == s[0] && IsDigit(init[0]);
      PrintParse(init);
      var n := ParseNat(s);
      assert n / 10 == ParseNat(init) && n % 10 == last as int - '0' as int;
    }
  }

  // ---- sorting keys -------------------------------------------------------------

  /** Python's string order: code points, lexicographic. */
  predicate StrLe(a: string, b: string) {
    a == "" || (b != "" && (a[0] < b[0] || (a[0] == b[0] && StrLe(a[1..], b[1..]))))
  }

  lemma {:induction false} StrLeTotal(a: string, b: string)
    ensures StrLe(a, b) || StrLe(b, a)
    ensures StrLe(a, b) && StrLe(b, a) ==> a == b
  {
    if a != "" && b != "" {
      StrLeTotal(a[1..], b[1..]);
      assert a == [a[0]] + a[1..] && b == [b[0]] + b[1..];
    }
  }

  /** One is the beginning of the other, or has the smaller character where they first differ. */
  lemma {:induction false} StrLeIff(a: string, b: string)
    ensures StrLe(a, b) <==> exists n: nat :: n <= |a| && n <= |b| && a[..n] == b[..n] && (n == |a| || (n < |b| && a[n] < b[n]))
  {
    if a != "" && b != "" && a[0] == b[0] {
      StrLeIff(a[1..], b[1..]);
      if n: nat :| n <= |a| && n <= |b| && a[..n] == b[..n] && (n == |a| || (n < |b| && a[n] < b[n])) {
        assert n > 0 ==> a[1..][..n - 1] == a[..n][1..] && b[1..][..n - 1] == b[..n][1..];
      }
      if n: nat :| n <= |a[1..]| && n <= |b[1..]| && a[1..][..n] == b[1..][..n] && (n == |a[1..]| || (n < |b[1..]| && a[1..][n] < b[1..][n])) {
        assert a[..n + 1] == [a[0]] + a[1..][..n] && b[..n + 1] == [b[0]] + b[1..][..n];
      }
    } else {
      assert a[..0] == b[..0];
    }
  }

  lemma {:induction false} StrLeTransitive(a: string, b: string, c: string)
    requires StrLe(a, b) && StrLe(b, c)
    ensures StrLe(a, c)
  {
    if a != "" && a[0] == b[0] && b[0] == c[0] {
      StrLeTransitive(a[1..], b[1..], c[1..]);
    }
  }

  lemma {:induction false} LeastExists(keys: set<string>)
    requires keys != {}
    ensures exists k :: k in keys && forall j | j in keys :: StrLe(k, j)
  {
    var x :| x in keys;
    var rest := keys - {x};
    if rest == {} {
      StrLeTotal(x, x);
      assert keys == {x};
    } else {
      LeastExists(rest);
      var m :| m in rest && forall j | j in rest :: StrLe(m, j);
      StrLeTotal(x, m);
      StrLeTotal(x, x);
      var k := if StrLe(x, m) then x else m;
      forall j | j in keys ensures StrLe(k, j) {
        if j != x && k == x { StrLeTransitive(x, m, j); }
      }
    }
  }

  predicate Least(k: string, keys: set<string>) { k in keys && forall j | j in keys :: StrLe(k, j) }

  lemma OneLeast(keys: set<string>)
    requires keys != {}
    ensures exists k :: Least(k, keys)
    ensures forall a, b | Least(a, keys) && Least(b, keys) :: a == b
  {
    LeastExists(keys);
    var k :| k in keys && forall j | j in keys :: StrLe(k, j);
    assert Least(k, keys);
    forall a, b | Least(a, keys) && Least(b, keys) ensures a == b {
      hide StrLe;
      StrLeTotal(a, b);
    }
  }

  /** `sorted(keys)`. */
  function Sorted(keys: set<string>): (r: seq<string>)
    ensures forall k :: k in r <==> k in keys
    ensures forall i, j | 0 <= i < j < |r| :: r[i] != r[j] && StrLe(r[i], r[j])
  {
    if keys == {} then []
    else
      hide StrLe;
      OneLeast(keys);
      var k :| Least(k, keys);
      [k] + Sorted(keys - {k})
  }

  // ---- sets -------------------------------------------------------------------

  lemma SubsetSize<T>(a: set<T>, b: set<T>)
    requires a <= b
    ensures |a| <= |b|
  {
    assert b == a + (b - a);
  }

  lemma SomeMember<T>(s: set<T>) returns (x: T)
    requires s != {}
    ensures x in s
  {
    x :| x in s;
  }
}
