/** Comparing release numbers (frontend/src/app/features/about/about.ts). */
module Version {
  import opened Text
  import opened Container

  // ---- Reading a version ---------------------------------------------------------------------------

  function FirstNonDigit(s: string): (i: nat)
    ensures i <= |s| && AllDigits(s[..i])
    ensures i < |s| ==> !IsDigit(s[i])
  {
    if s == "" || !IsDigit(s[0]) then 0 else 1 + FirstNonDigit(s[1..])
  }

  predicate IsLineEnd(c: char) { c in "\n\r\U{2028}\U{2029}" }

  function FirstLineEnd(s: string): (i: nat)
    ensures i <= |s| && (i < |s| ==> IsLineEnd(s[i]))
  {
    if s == "" || IsLineEnd(s[0]) then 0 else 1 + FirstLineEnd(s[1..])
  }

  /** Cuts from the first character that is not a digit to the end of that line, once. */
  function CutSuffix(part: string): string {
    var i := FirstNonDigit(part);
    if i == |part| then part else part[..i] + part[i + 1..][FirstLineEnd(part[i + 1..])..]
  }

  predicate IsBlank(c: char) { IsLineEnd(c) || c in "\t\U{B}\U{C} " }

  function SkipBlanks(s: string): string { if s != "" && IsBlank(s[0]) then SkipBlanks(s[1..]) else s }

  /** `parseInt(s, 10)`: blanks, a sign, then as many digits as there are; None when there is none. */
  function ParseInt(s: string): Option<int> {
    var t := SkipBlanks(s);
    var signed := t != "" && t[0] in "+-";
    var digits := if signed then t[1..] else t;
    var n := FirstNonDigit(digits);
    if n == 0 then None
    else
      var value: int := ParseNat(digits[..n]);
      Some(if signed && t[0] == '-' then -value else value)
  }

  function Numbers(parts: seq<string>): seq<int> {
    if parts == [] then []
    else
      var rest := Numbers(parts[1..]);
      match ParseInt(CutSuffix(parts[0]))
      case Some(n) => [n] + rest
      case None => rest
  }

  function DropV(version: string): string {
    if version != "" && version[0] in "vV" then version[1..] else version
  }

  function NormalizeVersion(version: string): seq<int> { Numbers(SplitOn(DropV(version), '.')) }

  // ---- Comparing -------------------------------------------------------------------------------------

  /** The k-th number, as if the version went on with zeros for ever. */
  function At(v: seq<int>, k: nat): int { if k < |v| then v[k] else 0 }

  /** The first place where they differ decides. */
  ghost predicate FirstDifference(a: seq<int>, b: seq<int>, k: nat) {
    At(a, k) != At(b, k) && forall j: nat | j < k :: At(a, j) == At(b, j)
  }

  /** Lexicographic order of the zero-padded versions. */
  ghost predicate Newer(a: seq<int>, b: seq<int>) {
    exists k: nat :: FirstDifference(a, b, k) && At(a, k) > At(b, k)
  }

  lemma OneFirstDifference(a: seq<int>, b: seq<int>, j: nat, k: nat)
    requires FirstDifference(a, b, j) && (FirstDifference(a, b, k) || FirstDifference(b, a, k))
    ensures j == k
  {
    assert j < k ==> At(a, j) == At(b, j);
    assert k < j ==> At(a, k) == At(b, k);
  }

  /** The loop stops at the first difference within the longer version. */
  method IsNewerVersion(remote: string, local: string) returns (newer: bool)
    ensures newer <==> Newer(NormalizeVersion(remote), NormalizeVersion(local))
  {
    hide NormalizeVersion;
    var r, l := NormalizeVersion(remote), NormalizeVersion(local);
    var maxLength := if |r| > |l| then |r| else |l|;
    for i := 0 to maxLength
      invariant forall j: nat | j < i :: At(r, j) == At(l, j)
    {
      var rv, lv := if i < |r| then r[i] else 0, if i < |l| then l[i] else 0;
      if rv > lv {
        assert FirstDifference(r, l, i);
        return true;
      }
      if rv < lv {
        assert FirstDifference(l, r, i);
        assert !Newer(r, l) by {
          if k: nat :| FirstDifference(r, l, k) && At(r, k) > At(l, k) { OneFirstDifference(r, l, k, i); }
        }
        return false;
      }
    }
    return false;
  }

  // ---- A strict weak order -----------------------------------------------------------------------------

  /** MAIN: nothing is newer than itself and no two versions are newer than each other. */
  lemma NewerIsAsymmetric(a: seq<int>, b: seq<int>)
    ensures !Newer(a, a)
    ensures !(Newer(a, b) && Newer(b, a))
  {
    if Newer(a, b) {
      var j: nat :| FirstDifference(a, b, j) && At(a, j) > At(b, j);
      forall k: nat | FirstDifference(b, a, k) ensures At(b, k) < At(a, k) { OneFirstDifference(a, b, j, k); }
    }
  }

  /** MAIN: being newer is transitive. */
  lemma NewerIsTransitive(a: seq<int>, b: seq<int>, c: seq<int>)
    requires Newer(a, b) && Newer(b, c)
    ensures Newer(a, c)
  {
    var j: nat :| FirstDifference(a, b, j) && At(a, j) > At(b, j);
    var k: nat :| FirstDifference(b, c, k) && At(b, k) > At(c, k);
    var m := if j < k then j else k;
    assert FirstDifference(a, c, m) && At(a, m) > At(c, m);
  }

  ghost predicate Tie(a: seq<int>, b: seq<int>) { forall k: nat :: At(a, k) == At(b, k) }

  lemma {:induction false} LeastDifference(a: seq<int>, b: seq<int>, k: nat) returns (first: nat)
    requires At(a, k) != At(b, k)
    ensures FirstDifference(a, b, first)
    decreases k
  {
    if j: nat :| j < k && At(a, j) != At(b, j) {
      first := LeastDifference(a, b, j);
    } else {
      first := k;
    }
  }

  /** MAIN: of two versions exactly one is newer or they tie, so ties are an equivalence and the order is a
      strict weak one. */
  lemma NewerOrTie(a: seq<int>, b: seq<int>)
    ensures Newer(a, b) || Newer(b, a) || Tie(a, b)
    ensures Tie(a, b) ==> !Newer(a, b) && !Newer(b, a)
  {
    if !Tie(a, b) {
      var k: nat :| At(a, k) != At(b, k);
      var first := LeastDifference(a, b, k);
      assert FirstDifference(b, a, first);
    }
  }

  function TrimZeros(v: seq<int>): (r: seq<int>)
    ensures r == [] || r[|r| - 1] != 0
  {
    if v != [] && v[|v| - 1] == 0 then TrimZeros(v[..|v| - 1]) else v
  }

  lemma {:induction false} TrimKeeps(v: seq<int>, k: nat)
    ensures At(TrimZeros(v), k) == At(v, k)
  {
    if v != [] && v[|v| - 1] == 0 { TrimKeeps(v[..|v| - 1], k); }
  }

  /** MAIN: two versions tie exactly when they differ only by trailing zeros. */
  lemma TieIffTrailingZeros(a: seq<int>, b: seq<int>)
    ensures Tie(a, b) <==> TrimZeros(a) == TrimZeros(b)
  {
    forall k: nat ensures At(TrimZeros(a), k) == At(a, k) && At(TrimZeros(b), k) == At(b, k) {
      TrimKeeps(a, k);
      TrimKeeps(b, k);
    }
    var x, y := TrimZeros(a), TrimZeros(b);
    if Tie(a, b) {
      assert forall k: nat :: At(x, k) == At(y, k);
      assert |x| > 0 ==> At(x, |x| - 1) == At(y, |x| - 1);
      assert |y| > 0 ==> At(x, |y| - 1) == At(y, |y| - 1);
      forall k | 0 <= k < |x| ensures x[k] == y[k] { assert At(x, k) == At(y, k); }
    } else {
      var k: nat :| At(a, k) != At(b, k);
      assert At(x, k) != At(y, k);
    }
  }

  // ---- Released versions ---------------------------------------------------------------------------------

  function Dotted(numbers: seq<nat>): string { Join(seq(|numbers|, i requires 0 <= i < |numbers| => PrintNat(numbers[i])), '.') }

  lemma DigitsParse(n: nat)
    ensures ParseInt(CutSuffix(PrintNat(n))) == Some(n)
  {
    hide PrintNat, ParseNat;
    var s := PrintNat(n);
    ParsePrint(n);
    assert IsDigit(s[0]);
    AllDigitsEnd(s);
  }

  lemma AllDigitsEnd(s: string)
    requires AllDigits(s)
    ensures FirstNonDigit(s) == |s| && s[..|s|] == s
  {
    assert forall i | 0 <= i < |s| :: IsDigit(s[i]);
  }

  lemma {:induction false} NumbersOfPrinted(numbers: seq<nat>, parts: seq<string>)
    requires |parts| == |numbers| && forall i | 0 <= i < |numbers| :: parts[i] == PrintNat(numbers[i])
    ensures Numbers(parts) == numbers
  {
    hide ParseInt, CutSuffix, PrintNat;
    if numbers != [] {
      DigitsParse(numbers[0]);
      NumbersOfPrinted(numbers[1..], parts[1..]);
    }
  }

  /** MAIN: a dotted release number is read back as its numbers, with or without a leading v, so releases are
      ordered as their numbers are. */
  lemma ReleaseReadsBack(numbers: seq<nat>)
    requires numbers != []
    ensures NormalizeVersion(Dotted(numbers)) == numbers
    ensures NormalizeVersion("v" + Dotted(numbers)) == numbers && NormalizeVersion("V" + Dotted(numbers)) == numbers
  {
    hide PrintNat, SplitOn, Numbers, Join;
    var parts := seq(|numbers|, i requires 0 <= i < |numbers| => PrintNat(numbers[i]));
    var s := Dotted(numbers);
    forall p | p in parts ensures '.' !in p {}
    SplitJoin(parts, '.');
    NumbersOfPrinted(numbers, parts);
    DottedStart(parts);
    assert ("v" + s)[1..] == s && ("V" + s)[1..] == s;
  }

  lemma DottedStart(parts: seq<string>)
    requires parts != [] && parts[0] != "" && IsDigit(parts[0][0])
    ensures var s := Join(parts, '.'); s != "" && IsDigit(s[0])
  {}

  // ---- Versions with a suffix ---------------------------------------------------------------------------

  lemma {:induction false} NumbersAppend(a: seq<string>, b: seq<string>)
    ensures Numbers(a + b) == Numbers(a) + Numbers(b)
  {
    hide ParseInt, CutSuffix;
    if a == [] {
      assert a + b == b;
    } else {
      assert (a + b)[1..] == a[1..] + b;
      NumbersAppend(a[1..], b);
    }
  }

  lemma {:induction false} IndexBehind(p: string, s: string)
    requires '.' !in p
    ensures IndexOf(p + s, '.') == |p| + IndexOf(s, '.')
  {
    if p == "" {
      assert p + s == s;
    } else {
      assert (p + s)[1..] == p[1..] + s && p[0] in p;
      IndexBehind(p[1..], s);
    }
  }

  lemma CutBehind(p: string, s: string, i: nat)
    requires i <= |s|
    ensures (p + s)[..|p| + i] == p + s[..i] && (p + s)[|p| + i..] == s[i..]
  {}

  lemma SplitBehind(p: string, s: string)
    requires '.' !in p
    ensures SplitOn(p + s, '.') == [p + SplitOn(s, '.')[0]] + SplitOn(s, '.')[1..]
  {
    hide IndexOf;
    var i := IndexOf(s, '.');
    IndexBehind(p, s);
    CutBehind(p, s, i);
    if i < |s| { CutBehind(p, s, i + 1); }
  }

  lemma SplitFirst(head: string, tail: string)
    requires '.' !in head
    ensures SplitOn(head + ['.'] + tail, '.') == [head] + SplitOn(tail, '.')
  {
    PartitionAt(head, '.', tail);
    hide IndexOf;
  }

  /** Text behind joined parts belongs to the last of them up to its first dot. */
  lemma {:induction false} SplitJoinTail(parts: seq<string>, s: string)
    requires parts != [] && forall p | p in parts :: '.' !in p
    ensures var n, tail := |parts| - 1, SplitOn(s, '.');
      SplitOn(Join(parts, '.') + s, '.') == parts[..n] + [parts[n] + tail[0]] + tail[1..]
  {
    hide SplitOn;
    assert parts[0] in parts;
    var n, tail := |parts| - 1, SplitOn(s, '.');
    if n == 0 {
      SplitBehind(parts[0], s);
    } else {
      var rest := Join(parts[1..], '.') + s;
      assert forall p | p in parts[1..] :: p in parts;
      SplitJoinTail(parts[1..], s);
      SplitFirst(parts[0], rest);
      assert Join(parts, '.') + s == parts[0] + ['.'] + rest;
      hide Join;
      assert [parts[0]] + parts[1..][..n - 1] == parts[..n];
    }
  }

  predicate OneLine(s: string) { forall i | 0 <= i < |s| :: !IsLineEnd(s[i]) }

  /** What is left of a suffix once its first line is cut. */
  function Uncut(h: string): (tail: string)
    requires h != ""
    ensures tail != "" ==> IsLineEnd(tail[0])
  {
    h[1..][FirstLineEnd(h[1..])..]
  }

  lemma CutBehindDigits(p: string, h: string)
    requires AllDigits(p) && h != "" && !IsDigit(h[0])
    ensures CutSuffix(p + h) == p + Uncut(h)
  {
    hide IsLineEnd, FirstLineEnd;
    FirstNonDigitAt(p, h);
    assert (p + h)[..|p|] == p && (p + h)[|p| + 1..] == h[1..];
  }

  lemma LineEndIsNoDigit(c: char)
    ensures IsLineEnd(c) ==> !IsDigit(c)
  {}

  /** The first piece of a suffix adds nothing to the digits it follows. */
  lemma PieceAddsNothing(n: nat, s: string)
    requires s != "" && !IsDigit(s[0])
    ensures ParseInt(CutSuffix(PrintNat(n) + SplitOn(s, '.')[0])) == Some(n)
  {
    hide PrintNat, IsLineEnd, ParseNat, ParseInt, CutSuffix, Uncut, IsDigit;
    var p, h := PrintNat(n), SplitOn(s, '.')[0];
    assert h == s[..IndexOf(s, '.')];
    ParsePrint(n);
    if h == "" {
      assert p + h == p;
      DigitsParse(n);
    } else {
      CutBehindDigits(p, h);
      var tail := Uncut(h);
      if tail != "" { LineEndIsNoDigit(tail[0]); }
      DigitsThenText(p, tail);
    }
  }

  lemma DigitIsPlain(c: char)
    requires IsDigit(c)
    ensures !IsBlank(c) && c !in "+-"
  {}

  lemma DigitsEnd(digits: string, tail: string)
    requires AllDigits(digits) && (tail != "" ==> !IsDigit(tail[0]))
    ensures FirstNonDigit(digits + tail) == |digits|
  {
    if tail == "" {
      AllDigitsEnd(digits);
      assert digits + tail == digits;
    } else {
      FirstNonDigitAt(digits, tail);
    }
  }

  /** Reading digits stops at a line end. */
  lemma DigitsThenText(digits: string, tail: string)
    requires digits != "" && AllDigits(digits) && (tail != "" ==> !IsDigit(tail[0]))
    ensures ParseInt(digits + tail) == Some(ParseNat(digits))
  {
    hide ParseNat, FirstNonDigit, IsDigit;
    var t := digits + tail;
    assert t[0] == digits[0];
    DigitIsPlain(t[0]) by { assert IsDigit(digits[0]); }
    DigitsEnd(digits, tail);
    assert t[..|digits|] == digits;
  }

  /** The numbers a suffix adds: those of its dotted parts after the first. */
  function Added(s: string): seq<int> { Numbers(SplitOn(s, '.')[1..]) }

  /** MAIN: a release number followed by anything that starts with no digit is read as the release, then as the
      numbers of the later dotted parts. */
  lemma SuffixReads(ns: seq<nat>, s: string)
    requires ns != [] && s != "" && !IsDigit(s[0])
    ensures NormalizeVersion(Dotted(ns) + s) == ns + Added(s)
  {
    hide PrintNat, SplitOn, Numbers, Join, ParseInt, CutSuffix;
    var parts := seq(|ns|, i requires 0 <= i < |ns| => PrintNat(ns[i]));
    var n, tail := |ns| - 1, SplitOn(s, '.');
    forall p | p in parts ensures '.' !in p {}
    DottedStart(parts);
    assert (Dotted(ns) + s)[0] == Dotted(ns)[0];
    SplitJoinTail(parts, s);
    NumbersOfPrinted(ns[..n], parts[..n]);
    PieceAddsNothing(ns[n], s);
    OneNumber(parts[n] + tail[0], ns[n]);
    NumbersAppend(parts[..n], [parts[n] + tail[0]]);
    NumbersAppend(parts[..n] + [parts[n] + tail[0]], tail[1..]);
    assert ns == ns[..n] + [ns[n]];
  }

  /** Nothing that ends a line for JavaScript. */
  predicate Unbroken(s: string) { forall i | 0 <= i < |s| :: s[i] != '\n' && s[i] != '\r' && s[i] != '\U{2028}' && s[i] != '\U{2029}' }

  /** MAIN: of an unbroken part only the digits it opens with count, and without any the part does not count. */
  lemma PartReads(digits: string, tail: string, rest: seq<string>)
    requires AllDigits(digits) && Unbroken(tail) && (tail != "" ==> !IsDigit(tail[0]))
    ensures Numbers([digits + tail] + rest) == (if digits == "" then [] else [ParseNat(digits)]) + Numbers(rest)
  {
    hide IsDigit, IsLineEnd, ParseNat;
    assert ([digits + tail] + rest)[1..] == rest;
    if tail == "" {
      assert digits + tail == digits;
      DigitsAlone(digits);
    } else {
      assert OneLine(tail[1..]) by { UnbrokenIsOneLine(tail); }
      NoLineEnd(tail[1..]);
      CutBehindDigits(digits, tail);
      assert digits + "" == digits;
    }
    if digits == "" {
      assert CutSuffix(digits + tail) == "";
      assert SkipBlanks("") == "";
    } else {
      DigitsThenText(digits, "");
      assert digits + "" == digits;
    }
  }

  lemma UnbrokenIsOneLine(s: string)
    requires Unbroken(s) && s != ""
    ensures OneLine(s[1..])
  {
    forall i | 0 <= i < |s[1..]| ensures !IsLineEnd(s[1..][i]) { assert s[1..][i] == s[i + 1]; }
  }

  predicate LineEnd(c: char) { c == '\n' || c == '\r' || c == '\U{2028}' || c == '\U{2029}' }

  predicate AllBlank(s: string) { forall i | 0 <= i < |s| :: LineEnd(s[i]) || s[i] == '\t' || s[i] == '\U{B}' || s[i] == '\U{C}' || s[i] == ' ' }

  lemma {:induction false} BlanksSkipped(blanks: string, s: string)
    requires AllBlank(blanks) && s != "" && !IsBlank(s[0])
    ensures SkipBlanks(blanks + s) == s
  {
    if blanks == "" {
      assert blanks + s == s;
    } else {
      assert LineEnd(blanks[0]) ==> IsLineEnd(blanks[0]);
      assert (blanks + s)[1..] == blanks[1..] + s;
      BlanksSkipped(blanks[1..], s);
    }
  }

  /** MAIN: the cut ends with the line, so a number at the start of the next one counts, with its sign. */
  lemma SecondLineReads(head: string, end: char, blanks: string, n: nat)
    requires head != "" && Unbroken(head) && !IsDigit(head[0]) && LineEnd(end) && AllBlank(blanks)
    ensures ParseInt(CutSuffix(head + ([end] + blanks + ("-" + PrintNat(n))))) == Some(0 - n as int)
    ensures ParseInt(CutSuffix(head + ([end] + blanks + ("+" + PrintNat(n))))) == Some(n)
  {
    hide IsDigit, IsLineEnd, PrintNat, ParseInt, CutSuffix, LineEnd, Unbroken, AllBlank, SkipBlanks;
    SignedLine(head, end, blanks, "-" + PrintNat(n));
    SignedLine(head, end, blanks, "+" + PrintNat(n));
    SignedInt(CutSuffix(head + ([end] + blanks + ("-" + PrintNat(n)))), "-", n);
    SignedInt(CutSuffix(head + ([end] + blanks + ("+" + PrintNat(n)))), "+", n);
  }

  lemma SignedInt(s: string, sign: string, n: nat)
    requires (sign == "-" || sign == "+") && SkipBlanks(s) == sign + PrintNat(n)
    ensures ParseInt(s) == Some(if sign == "-" then 0 - n as int else n)
  {
    hide IsDigit, SkipBlanks;
    var t, digits := SkipBlanks(s), PrintNat(n);
    ParsePrint(n);
    hide PrintNat, ParseNat;
    assert t[1..] == digits && t[0] == sign[0];
    AllDigitsEnd(digits);
  }

  lemma SignedLine(head: string, end: char, blanks: string, signed: string)
    requires head != "" && Unbroken(head) && !IsDigit(head[0]) && LineEnd(end) && AllBlank(blanks) && signed != "" && signed[0] in "+-"
    ensures SkipBlanks(CutSuffix(head + ([end] + blanks + signed))) == signed
  {
    var tail := [end] + blanks + signed;
    var part := head + tail;
    assert FirstNonDigit(part) == 0 && part[1..] == head[1..] + tail;
    assert OneLine(head[1..]) by { UnbrokenIsOneLine(head); }
    FirstLineEndBehind(head[1..], tail);
    assert part[1..][|head[1..]|..] == tail;
    assert part[..0] + tail == tail;
    assert AllBlank([end] + blanks);
    assert signed[0] == '+' || signed[0] == '-';
    BlanksSkipped([end] + blanks, signed);
  }

  lemma {:induction false} FirstLineEndBehind(head: string, tail: string)
    requires OneLine(head) && tail != "" && LineEnd(tail[0])
    ensures FirstLineEnd(head + tail) == |head|
  {
    if head == "" {
      assert head + tail == tail;
    } else {
      assert (head + tail)[1..] == head[1..] + tail;
      FirstLineEndBehind(head[1..], tail);
    }
  }

  lemma OneNumber(part: string, n: int)
    requires ParseInt(CutSuffix(part)) == Some(n)
    ensures Numbers([part]) == [n]
  {
    hide ParseInt, CutSuffix;
    assert Numbers([part][1..]) == [];
  }

  lemma {:induction false} NumbersNonNegative(parts: seq<string>)
    requires forall p | p in parts :: OneLine(p)
    ensures forall x | x in Numbers(parts) :: x >= 0
  {
    hide ParseInt, CutSuffix, OneLine;
    if parts != [] {
      assert parts[0] in parts;
      NumbersNonNegative(parts[1..]);
      PartNonNegative(parts[0]);
    }
  }

  lemma PartNonNegative(part: string)
    requires OneLine(part)
    ensures var r := ParseInt(CutSuffix(part)); r.Some? ==> r.value >= 0
  {
    var i := FirstNonDigit(part);
    if i < |part| {
      NoLineEnd(part[i + 1..]);
      assert CutSuffix(part) == part[..i];
    }
    var t := CutSuffix(part);
    assert AllDigits(t);
    assert t != "" ==> IsDigit(t[0]);
  }

  lemma {:induction false} PiecesOneLine(s: string)
    requires OneLine(s)
    ensures forall p | p in SplitOn(s, '.') :: OneLine(p)
    decreases |s|
  {
    hide IsLineEnd;
    var i := IndexOf(s, '.');
    if i < |s| { PiecesOneLine(s[i + 1..]); }
  }

  /** The first added number other than zero. */
  predicate Leads(xs: seq<int>, k: int) { 0 <= k < |xs| && xs[k] != 0 && forall j | 0 <= j < k :: xs[j] == 0 }

  lemma LeadsDiffer(a: seq<int>, xs: seq<int>, k: int)
    ensures k >= |a| ==> (FirstDifference(a + xs, a, k) <==> Leads(xs, k - |a|))
    ensures 0 <= k < |a| ==> !FirstDifference(a + xs, a, k)
  {
    var b := a + xs;
    assert forall j: nat :: At(b, j) == if j < |a| then At(a, j) else if j < |b| then xs[j - |a|] else 0;
    if k >= |a| && FirstDifference(b, a, k) {
      forall j | 0 <= j < k - |a| ensures xs[j] == 0 { assert At(b, |a| + j) == At(a, |a| + j); }
    }
  }

  /** Added numbers decide by the first of them that is not zero. */
  lemma LongerIsNewerIff(a: seq<int>, xs: seq<int>)
    ensures Newer(a + xs, a) <==> exists k :: Leads(xs, k) && xs[k] > 0
    ensures Newer(a, a + xs) <==> exists k :: Leads(xs, k) && xs[k] < 0
  {
    hide Leads;
    var b := a + xs;
    forall k: nat ensures FirstDifference(b, a, k) <==> k >= |a| && Leads(xs, k - |a|) { LeadsDiffer(a, xs, k); }
    forall k: nat ensures FirstDifference(a, b, k) <==> FirstDifference(b, a, k) { DifferenceSymmetric(a, b, k); }
    forall k | Leads(xs, k) ensures 0 <= k < |xs| && At(b, |a| + k) == xs[k] && At(a, |a| + k) == 0 && FirstDifference(b, a, |a| + k) {
      LeadsInRange(xs, k);
      assert Leads(xs, |a| + k - |a|);
    }
    if Newer(b, a) {
      var k: nat :| FirstDifference(b, a, k) && At(b, k) > At(a, k);
      assert Leads(xs, k - |a|);
    }
    if Newer(a, b) {
      var k: nat :| FirstDifference(a, b, k) && At(a, k) > At(b, k);
      assert Leads(xs, k - |a|);
    }
  }

  lemma LeadsInRange(xs: seq<int>, k: int)
    requires Leads(xs, k)
    ensures 0 <= k < |xs|
  {}

  lemma DifferenceSymmetric(a: seq<int>, b: seq<int>, k: nat)
    ensures FirstDifference(a, b, k) <==> FirstDifference(b, a, k)
  {}

  /** MAIN: such a version passes for newer than its release if and only if the first number it adds other than
      zero is positive, and for older if and only if that number is negative. */
  lemma SuffixIsNewerIff(ns: seq<nat>, s: string)
    requires ns != [] && s != "" && !IsDigit(s[0])
    ensures Newer(NormalizeVersion(Dotted(ns) + s), NormalizeVersion(Dotted(ns))) <==> exists k :: Leads(Added(s), k) && Added(s)[k] > 0
    ensures Newer(NormalizeVersion(Dotted(ns)), NormalizeVersion(Dotted(ns) + s)) <==> exists k :: Leads(Added(s), k) && Added(s)[k] < 0
  {
    hide NormalizeVersion, Dotted, Added, Newer, Leads;
    SuffixReads(ns, s);
    ReleaseReadsBack(ns);
    LongerIsNewerIff(ns, Added(s));
  }

  /** Only a line end can bring a negative number: on one line a suffix never makes a version older. */
  lemma OneLineSuffix(ns: seq<nat>, s: string)
    requires ns != [] && s != "" && !IsDigit(s[0]) && OneLine(s)
    ensures Newer(NormalizeVersion(Dotted(ns) + s), NormalizeVersion(Dotted(ns))) <==> exists x :: x in Added(s) && x != 0
    ensures !Newer(NormalizeVersion(Dotted(ns)), NormalizeVersion(Dotted(ns) + s))
  {
    hide NormalizeVersion, Dotted, Numbers, Newer, OneLine;
    SuffixIsNewerIff(ns, s);
    PiecesOneLine(s);
    NumbersNonNegative(SplitOn(s, '.')[1..]);
    if x :| x in Added(s) && x != 0 {
      var k :| 0 <= k < |Added(s)| && Added(s)[k] == x;
      var first := FirstNonZero(Added(s), k);
      assert Leads(Added(s), first) && Added(s)[first] in Added(s);
    }
    if k :| Leads(Added(s), k) { assert Added(s)[k] in Added(s); }
  }

  lemma {:induction false} FirstNonZero(xs: seq<int>, k: nat) returns (first: nat)
    requires k < |xs| && xs[k] != 0
    ensures first < |xs| && xs[first] != 0 && forall j | 0 <= j < first :: xs[j] == 0
    decreases k
  {
    if j: nat :| j < k && xs[j] != 0 { first := FirstNonZero(xs, j); } else { first := k; }
  }

  /** For instance the pre-release 1.0-rc.1 reads as 1.0.1 and passes for newer than the release 1.0. */
  lemma PrereleaseLooksNewer()
    ensures NormalizeVersion("1.0-rc.1") == [1, 0, 1] && Newer(NormalizeVersion("1.0-rc.1"), NormalizeVersion("1.0"))
  {
    hide NormalizeVersion, Numbers, Newer, SplitOn, ParseInt, CutSuffix, Dotted;
    var s := "-rc.1";
    SmallPrints();
    assert Dotted([1, 0]) + s == "1.0-rc.1";
    RcParts();
    DigitsParse(1);
    OneNumber("1", 1);
    SuffixReads([1, 0], s);
    SuffixIsNewerIff([1, 0], s);
    assert Added(s) == [1] && Leads(Added(s), 0);
  }

  lemma RcParts()
    ensures SplitOn("-rc.1", '.')[1..] == ["1"] && OneLine("-rc.1") && PrintNat(1) == "1" && CutSuffix("1") == "1"
  {
    hide SplitOn, ParseNat, CutSuffix;
    var parts := ["-rc", "1"];
    assert Join(["1"], '.') == "1";
    assert Join(parts, '.') == "-rc.1";
    SplitJoin(parts, '.');
    DigitsAlone("1");
  }

  lemma SmallPrints()
    ensures Dotted([1, 0]) == "1.0"
  {
    assert PrintNat(1) == "1" && PrintNat(0) == "0";
    var parts := seq(2, i requires 0 <= i < 2 => PrintNat([1, 0][i]));
    assert parts == ["1", "0"];
    assert Join(["0"], '.') == "0";
  }

  lemma DigitsAlone(digits: string)
    requires AllDigits(digits)
    ensures CutSuffix(digits) == digits
  {
    AllDigitsEnd(digits);
  }

  lemma {:induction false} FirstNonDigitAt(digits: string, suffix: string)
    requires AllDigits(digits) && suffix != "" && !IsDigit(suffix[0])
    ensures FirstNonDigit(digits + suffix) == |digits|
  {
    if digits == "" {
      assert digits + suffix == suffix;
    } else {
      assert (digits + suffix)[1..] == digits[1..] + suffix;
      FirstNonDigitAt(digits[1..], suffix);
    }
  }

  lemma {:induction false} NoLineEnd(s: string)
    requires forall i | 0 <= i < |s| :: !IsLineEnd(s[i])
    ensures FirstLineEnd(s) == |s|
  {
    if s != "" { NoLineEnd(s[1..]); }
  }
}
