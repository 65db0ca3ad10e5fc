/**
 * The JavaScript string built-ins the version logic is written with, restricted to what
 * the core needs: `String.prototype.split` on one character, `parseInt` on a decimal
 * digit prefix, `trim` over ASCII whitespace, removal of quote characters, `startsWith`,
 * `endsWith`, `replace` of the first occurrence of a string, and `${n}` for a
 * non-negative integer.
 */
module Strings {
  import opened Wrappers

  // ---------------------------------------------------------------- digits and numbers

  predicate IsDigit(c: char) {
    '0' <= c <= '9'
  }

  predicate AllDigits(s: string) {
    forall i | 0 <= i < |s| :: IsDigit(s[i])
  }

  function DigitValue(c: char): nat
    requires IsDigit(c)
  {
    c as int - '0' as int
  }

  function DigitChar(d: nat): (c: char)
    requires d < 10
    ensures IsDigit(c) && DigitValue(c) == d
  {
    ('0' as int + d) as char
  }

  /** The decimal rendering of `n`, as a template literal `${n}` produces it. */
  function NatToString(n: nat): (s: string)
    ensures |s| > 0 && AllDigits(s)
    decreases n
  {
    if n < 10 then [DigitChar(n)] else NatToString(n / 10) + [DigitChar(n % 10)]
  }

  /** The value of a string of decimal digits, most significant first. */
  function DigitsValue(s: string): nat
    requires AllDigits(s)
  {
    if s == [] then 0 else DigitsValue(s[..|s| - 1]) * 10 + DigitValue(s[|s| - 1])
  }

  /** The length of the longest prefix of `s` made of decimal digits. */
  function LeadingDigitCount(s: string): (k: nat)
    ensures k <= |s| && AllDigits(s[..k])
    ensures k < |s| ==> !IsDigit(s[k])
  {
    if s == [] || !IsDigit(s[0]) then 0 else 1 + LeadingDigitCount(s[1..])
  }

  /**
   * `parseInt(s)` for strings without leading whitespace, sign or radix prefix: the value
   * of the longest decimal-digit prefix, and None (`NaN`) when there is no digit first.
   */
  function ParseInt(s: string): (r: Option<nat>)
    ensures r.None? <==> (s == [] || !IsDigit(s[0]))
  {
    var k := LeadingDigitCount(s);
    if k == 0 then None else Some(DigitsValue(s[..k]))
  }

  lemma {:induction false} DigitsValueOfNatToString(n: nat)
    ensures DigitsValue(NatToString(n)) == n
    decreases n
  {
    if n >= 10 {
      var s := NatToString(n);
      assert s[..|s| - 1] == NatToString(n / 10);
      DigitsValueOfNatToString(n / 10);
    }
  }

  lemma {:induction false} LeadingDigitCountOfDigits(s: string, rest: string)
    requires AllDigits(s)
    requires rest == [] || !IsDigit(rest[0])
    ensures LeadingDigitCount(s + rest) == |s|
    decreases |s|
  {
    if s == [] {
      assert s + rest == rest;
    } else {
      var x, s' := Uncons(s);
      assert forall i | 0 <= i < |s'| :: s'[i] == s[i + 1];
      LeadingDigitCountOfDigits(s', rest);
      var t := [x] + s' + rest;
      assert t[0] == x;
      assert t[1..] == s' + rest;
    }
  }

  /** The digit prefix ends exactly where the first non-digit stands. */
  lemma LeadingDigitCountExact(s: string, k: nat)
    requires k < |s| && AllDigits(s[..k]) && !IsDigit(s[k])
    ensures LeadingDigitCount(s) == k
  {
    LeadingDigitCountOfDigits(s[..k], s[k..]);
    assert s[..k] + s[k..] == s;
  }

  /** The decimal rendering of a number holds no character other than digits. */
  lemma NatToStringHasNo(n: nat, c: char)
    requires !IsDigit(c)
    ensures c !in NatToString(n)
  {
    var s := NatToString(n);
    forall i | 0 <= i < |s| ensures s[i] != c {
      assert IsDigit(s[i]);
    }
  }

  /** `parseInt` reads back what `${n}` writes, whatever non-digit text follows it. */
  lemma ParseIntOfNatToString(n: nat, rest: string)
    requires rest == [] || !IsDigit(rest[0])
    ensures ParseInt(NatToString(n) + rest) == Some(n)
  {
    var s := NatToString(n);
    LeadingDigitCountOfDigits(s, rest);
    assert (s + rest)[..|s|] == s;
    DigitsValueOfNatToString(n);
  }

  // ---------------------------------------------------------------- split and join

  /** The index of the first `c` in `s`, or `|s|` when there is none. */
  function IndexOf(s: string, c: char): (i: nat)
    ensures i <= |s|
    ensures i < |s| ==> s[i] == c
    ensures forall j | 0 <= j < i :: s[j] != c
  {
    if s == [] || s[0] == c then 0 else 1 + IndexOf(s[1..], c)
  }

  /** `s.split(sep)`: the pieces between the occurrences of `sep`; never empty. */
  function Split(s: string, sep: char): (parts: seq<string>)
    ensures |parts| >= 1
    ensures parts[0] == s[..IndexOf(s, sep)]
    decreases |s|
  {
    var i := IndexOf(s, sep);
    if i == |s| then [s] else [s[..i]] + Split(s[i + 1..], sep)
  }

  /** No piece of a split holds the separator. */
  lemma {:induction false} SplitPiecesFree(s: string, sep: char)
    ensures forall k | 0 <= k < |Split(s, sep)| :: sep !in Split(s, sep)[k]
    decreases |s|
  {
    var i := IndexOf(s, sep);
    if i < |s| {
      SplitPiecesFree(s[i + 1..], sep);
    }
  }

  /** A split has a single piece exactly when the separator does not occur. */
  lemma SplitSingle(s: string, sep: char)
    ensures |Split(s, sep)| == 1 <==> sep !in s
  {
    var i := IndexOf(s, sep);
    if i < |s| {
      assert s[i] == sep;
    }
  }

  /** `parts.join(sep)`. */
  function Join(parts: seq<string>, sep: char): string
  {
    if |parts| == 0 then ""
    else if |parts| == 1 then parts[0]
    else parts[0] + [sep] + Join(parts[1..], sep)
  }

  lemma {:induction false} IndexOfAt(a: string, c: char, b: string)
    requires c !in a
    ensures IndexOf(a + [c] + b, c) == |a|
    decreases |a|
  {
    if a == [] {
      assert (a + [c] + b)[0] == c;
    } else {
      var x, a' := Uncons(a);
      IndexOfAt(a', c, b);
      var t := [x] + a' + [c] + b;
      assert t[0] == x;
      assert t[1..] == a' + [c] + b;
    }
  }

  /** Splitting at the first separator. */
  lemma SplitAfterSep(a: string, sep: char, b: string)
    requires sep !in a
    ensures Split(a + [sep] + b, sep) == [a] + Split(b, sep)
  {
    var s := a + [sep] + b;
    IndexOfAt(a, sep, b);
    assert s[..|a|] == a;
    assert s[|a| + 1..] == b;
  }

  /** Joining and then splitting gives the pieces back, when none holds the separator. */
  lemma {:induction false} SplitJoin(parts: seq<string>, sep: char)
    requires |parts| >= 1
    requires forall k | 0 <= k < |parts| :: sep !in parts[k]
    ensures Split(Join(parts, sep), sep) == parts
    decreases |parts|
  {
    if |parts| > 1 {
      var x, rest := Uncons(parts);
      assert forall k | 0 <= k < |rest| :: rest[k] == parts[k + 1];
      SplitJoin(rest, sep);
      JoinCons(x, rest, sep);
      SplitAfterSep(x, sep, Join(rest, sep));
    }
  }

  lemma JoinCons(x: string, rest: seq<string>, sep: char)
    requires |rest| >= 1
    ensures Join([x] + rest, sep) == x + [sep] + Join(rest, sep)
  {
    assert ([x] + rest)[1..] == rest;
  }

  /** A string holding `sep` is the text before its first `sep`, `sep`, and the rest. */
  lemma AtFirstSep(s: string, sep: char) returns (a: string, b: string)
    requires sep in s
    ensures s == a + [sep] + b && sep !in a
  {
    var i := IndexOf(s, sep);
    a, b := s[..i], s[i + 1..];
    assert s == a + [sep] + b;
  }

  /** Splitting and then joining gives the string back. */
  lemma {:induction false} JoinSplit(s: string, sep: char)
    ensures Join(Split(s, sep), sep) == s
    decreases |s|
  {
    if sep in s {
      var a, b := AtFirstSep(s, sep);
      JoinSplit(b, sep);
      JoinSplitStep(a, b, sep);
    }
  }

  /** The inductive step of JoinSplit: the piece before the first separator. */
  lemma JoinSplitStep(a: string, b: string, sep: char)
    requires sep !in a
    requires Join(Split(b, sep), sep) == b
    ensures Join(Split(a + [sep] + b, sep), sep) == a + [sep] + b
  {
    SplitAfterSep(a, sep, b);
    JoinCons(a, Split(b, sep), sep);
  }

  /** A separator in the middle splits the pieces of both sides apart. */
  lemma {:induction false} SplitConcatSep(a: string, sep: char, b: string)
    ensures Split(a + [sep] + b, sep) == Split(a, sep) + Split(b, sep)
    decreases |a|
  {
    if sep !in a {
      SplitAfterSep(a, sep, b);
    } else {
      var a1, a2 := AtFirstSep(a, sep);
      SplitConcatSep(a2, sep, b);
      SplitConcatSepStep(a1, a2, sep, b);
    }
  }

  /** The inductive step of SplitConcatSep: the piece before the first separator. */
  lemma SplitConcatSepStep(a1: string, a2: string, sep: char, b: string)
    requires sep !in a1
    requires Split(a2 + [sep] + b, sep) == Split(a2, sep) + Split(b, sep)
    ensures Split((a1 + [sep] + a2) + [sep] + b, sep) == Split(a1 + [sep] + a2, sep) + Split(b, sep)
  {
    var c := a2 + [sep] + b;
    calc {
      Split((a1 + [sep] + a2) + [sep] + b, sep);
      { ConcatAroundSeps(a1, a2, b, sep); }
      Split(a1 + [sep] + c, sep);
      { SplitAfterSep(a1, sep, c); }
      [a1] + Split(c, sep);
      [a1] + (Split(a2, sep) + Split(b, sep));
      ([a1] + Split(a2, sep)) + Split(b, sep);
      { SplitAfterSep(a1, sep, a2); }
      Split(a1 + [sep] + a2, sep) + Split(b, sep);
    }
  }

  lemma ConcatAroundSeps(x: string, y: string, z: string, c: char)
    ensures (x + [c] + y) + [c] + z == x + [c] + (y + [c] + z)
  {
  }

  /** The number of occurrences of `c` in `s`. */
  function CountChar(s: string, c: char): nat
  {
    if s == [] then 0 else (if s[0] == c then 1 else 0) + CountChar(s[1..], c)
  }

  lemma {:induction false} CountCharConcat(a: string, b: string, c: char)
    ensures CountChar(a + b, c) == CountChar(a, c) + CountChar(b, c)
    decreases |a|
  {
    if a == [] {
      assert a + b == b;
    } else {
      var x, a' := Uncons(a);
      CountCharConcat(a', b, c);
      var t := [x] + a' + b;
      assert t[0] == x;
      assert t[1..] == a' + b;
    }
  }

  lemma {:induction false} CountCharAbsent(s: string, c: char)
    requires c !in s
    ensures CountChar(s, c) == 0
    decreases |s|
  {
    if s != [] {
      CountCharAbsent(s[1..], c);
    }
  }

  /** A split yields one piece more than there are separators. */
  lemma {:induction false} SplitLength(s: string, sep: char)
    ensures |Split(s, sep)| == CountChar(s, sep) + 1
    decreases |s|
  {
    if sep !in s {
      CountCharAbsent(s, sep);
    } else {
      var a, b := AtFirstSep(s, sep);
      SplitLength(b, sep);
      SplitLengthStep(a, b, sep);
    }
  }

  /** The inductive step of SplitLength: the piece before the first separator. */
  lemma SplitLengthStep(a: string, b: string, sep: char)
    requires sep !in a
    requires |Split(b, sep)| == CountChar(b, sep) + 1
    ensures |Split(a + [sep] + b, sep)| == CountChar(a + [sep] + b, sep) + 1
  {
    var t := [sep] + b;
    calc {
      |Split(a + [sep] + b, sep)|;
      { SplitAfterSep(a, sep, b); }
      1 + |Split(b, sep)|;
      CountChar(b, sep) + 2;
      { assert t[0] == sep && t[1..] == b; }
      CountChar(t, sep) + 1;
      { CountCharAbsent(a, sep); }
      CountChar(a, sep) + CountChar(t, sep) + 1;
      { CountCharConcat(a, t, sep); }
      CountChar(a + t, sep) + 1;
      { assert a + t == a + [sep] + b; }
      CountChar(a + [sep] + b, sep) + 1;
    }
  }

  // ---------------------------------------------------------------- prefixes and suffixes

  predicate StartsWith(s: string, p: string) {
    |p| <= |s| && s[..|p|] == p
  }

  predicate EndsWith(s: string, p: string) {
    |p| <= |s| && s[|s| - |p|..] == p
  }

  /** `s.startsWith(p)`: `s` is `p` followed by something. */
  lemma StartsWithMeans(s: string, p: string)
    ensures StartsWith(s, p) <==> exists t: string :: s == p + t
  {
    if StartsWith(s, p) {
      assert s == p + s[|p|..];
    }
    if t: string :| s == p + t {
      assert s[..|p|] == p;
    }
  }

  /** `s.endsWith(p)`: `s` is something followed by `p`. */
  lemma EndsWithMeans(s: string, p: string)
    ensures EndsWith(s, p) <==> exists t: string :: s == t + p
  {
    if EndsWith(s, p) {
      assert s == s[..|s| - |p|] + p;
    }
    if t: string :| s == t + p {
      assert s[|t|..] == p;
    }
  }

  // ---------------------------------------------------------------- trim

  /** ASCII whitespace and line terminators, the part of `trim`'s set this model keeps. */
  predicate IsSpace(c: char) {
    c == ' ' || c == '\t' || c == '\n' || c == '\r' || c as int == 11 || c as int == 12
  }

  predicate AllSpace(s: string) {
    forall i | 0 <= i < |s| :: IsSpace(s[i])
  }

  /** The number of whitespace characters `s` starts with. */
  function LeadingSpaceCount(s: string): (k: nat)
    ensures k <= |s|
    ensures forall i | 0 <= i < k :: IsSpace(s[i])
    ensures k < |s| ==> !IsSpace(s[k])
  {
    if s != [] && IsSpace(s[0]) then 1 + LeadingSpaceCount(s[1..]) else 0
  }

  /** The number of whitespace characters `s` ends with. */
  function TrailingSpaceCount(s: string): (k: nat)
    ensures k <= |s|
    ensures forall i | |s| - k <= i < |s| :: IsSpace(s[i])
    ensures k < |s| ==> !IsSpace(s[|s| - 1 - k])
  {
    if s != [] && IsSpace(s[|s| - 1]) then 1 + TrailingSpaceCount(s[..|s| - 1]) else 0
  }

  /** `trim`: `s` without its leading and trailing whitespace. */
  function Trim(s: string): (r: string)
    ensures r == [] || (!IsSpace(r[0]) && !IsSpace(r[|r| - 1]))
  {
    var t := s[LeadingSpaceCount(s)..];
    t[..|t| - TrailingSpaceCount(t)]
  }

  /** What `trim` removes is whitespace at the two ends, and nothing else. */
  lemma TrimIsInfix(s: string)
    ensures var r, i := Trim(s), LeadingSpaceCount(s);
      i + |r| <= |s| && s[i..i + |r|] == r && AllSpace(s[..i]) && AllSpace(s[i + |r|..])
  {
    var i := LeadingSpaceCount(s);
    var t := s[i..];
    var j := TrailingSpaceCount(t);
    var r := t[..|t| - j];
    assert Trim(s) == r;
    assert s[i..i + |r|] == r;
    var front, back := s[..i], s[i + |r|..];
    assert AllSpace(front) by {
      forall k | 0 <= k < |front| ensures IsSpace(front[k]) {
        assert front[k] == s[k];
      }
    }
    assert AllSpace(back) by {
      forall k | 0 <= k < |back| ensures IsSpace(back[k]) {
        assert back[k] == t[|t| - j + k];
      }
    }
  }

  /** Trimming a string whose ends are not whitespace changes nothing. */
  lemma TrimOfTrimmed(s: string)
    requires s == [] || (!IsSpace(s[0]) && !IsSpace(s[|s| - 1]))
    ensures Trim(s) == s
  {
  }

  // ---------------------------------------------------------------- quotes

  predicate IsQuote(c: char) {
    c == '\'' || c == '"'
  }

  /** `s.replace(/['"]+/g, '')`: `s` with every single and double quote removed. */
  function RemoveQuotes(s: string): (r: string)
    ensures |r| <= |s|
    ensures forall i | 0 <= i < |r| :: !IsQuote(r[i])
  {
    if s == [] then [] else (if IsQuote(s[0]) then [] else [s[0]]) + RemoveQuotes(s[1..])
  }

  /** Quote removal works piecewise. */
  lemma {:induction false} RemoveQuotesConcat(a: string, b: string)
    ensures RemoveQuotes(a + b) == RemoveQuotes(a) + RemoveQuotes(b)
    decreases |a|
  {
    if a == [] {
      assert a + b == b;
    } else {
      var x, a' := Uncons(a);
      RemoveQuotesConcat(a', b);
      var h := if IsQuote(x) then [] else [x];
      var t := [x] + a' + b;
      assert t[0] == x;
      assert t[1..] == a' + b;
      assert RemoveQuotes(t) == h + RemoveQuotes(a' + b);
      assert RemoveQuotes(a) == h + RemoveQuotes(a');
      AppendAssoc(h, RemoveQuotes(a'), RemoveQuotes(b));
    }
  }

  /** A single quote character is removed altogether. */
  lemma RemoveQuotesQuote(q: char)
    requires IsQuote(q)
    ensures RemoveQuotes([q]) == []
  {
    assert [q][1..] == [];
  }

  /** A string without quotes is left as it is. */
  lemma {:induction false} RemoveQuotesUnquoted(s: string)
    requires forall i | 0 <= i < |s| :: !IsQuote(s[i])
    ensures RemoveQuotes(s) == s
    decreases |s|
  {
    if s != [] {
      RemoveQuotesUnquoted(s[1..]);
    }
  }

  // ---------------------------------------------------------------- replace

  /** `s.replace(pat, rep)` for a non-empty string pattern: only the first occurrence. */
  function ReplaceFirst(s: string, pat: string, rep: string): string
    requires |pat| > 0
    decreases |s|
  {
    if |s| < |pat| then s
    else if s[..|pat|] == pat then rep + s[|pat|..]
    else [s[0]] + ReplaceFirst(s[1..], pat, rep)
  }

  /** `pat` occurs in `s` starting at index `i`. */
  predicate OccursAt(s: string, pat: string, i: nat) {
    i + |pat| <= |s| && s[i..i + |pat|] == pat
  }

  /** An occurrence past the first character is an occurrence in the rest. */
  lemma OccursShift(s: string, pat: string, i: nat)
    requires 1 <= i && s != []
    ensures OccursAt(s, pat, i) <==> OccursAt(s[1..], pat, i - 1)
  {
    if i + |pat| <= |s| {
      var t := s[1..];
      var here, there := s[i..i + |pat|], t[i - 1..i - 1 + |pat|];
      forall k | 0 <= k < |pat| ensures here[k] == there[k] {
        assert t[i - 1 + k] == s[i + k];
      }
      assert here == there;
    }
  }

  /** Without an occurrence of `pat`, `replace` returns `s` unchanged. */
  lemma {:induction false} ReplaceFirstAbsent(s: string, pat: string, rep: string)
    requires |pat| > 0
    requires forall i: nat | i <= |s| :: !OccursAt(s, pat, i)
    ensures ReplaceFirst(s, pat, rep) == s
    decreases |s|
  {
    if |s| >= |pat| {
      assert !OccursAt(s, pat, 0);
      var t := s[1..];
      forall i: nat | i <= |t| ensures !OccursAt(t, pat, i) {
        OccursShift(s, pat, i + 1);
      }
      ReplaceFirstAbsent(t, pat, rep);
      assert [s[0]] + t == s;
    }
  }

  /** `replace` replaces the first occurrence of `pat`, and leaves the rest of `s` alone. */
  lemma {:induction false} ReplaceFirstAt(s: string, pat: string, rep: string, i: nat)
    requires |pat| > 0
    requires OccursAt(s, pat, i) && forall j: nat | j < i :: !OccursAt(s, pat, j)
    ensures ReplaceFirst(s, pat, rep) == s[..i] + rep + s[i + |pat|..]
    decreases |s|
  {
    if i == 0 {
      assert s[..|pat|] == pat;
    } else {
      ReplaceFirstPast(s, pat, rep);
      OccursShift(s, pat, i);
      NoEarlierShift(s, pat, i);
      ReplaceFirstAt(s[1..], pat, rep, i - 1);
      RegroupTail(s, rep, i, |pat|);
    }
  }

  /** Where `pat` does not start `s`, `replace` keeps the first character and goes on. */
  lemma ReplaceFirstPast(s: string, pat: string, rep: string)
    requires |pat| > 0 && |s| >= |pat| && !OccursAt(s, pat, 0)
    ensures ReplaceFirst(s, pat, rep) == [s[0]] + ReplaceFirst(s[1..], pat, rep)
  {
  }

  /** No occurrence before `i` in `s` means none before `i - 1` in its tail. */
  lemma NoEarlierShift(s: string, pat: string, i: nat)
    requires 1 <= i && s != []
    requires forall j: nat | j < i :: !OccursAt(s, pat, j)
    ensures forall j: nat | j < i - 1 :: !OccursAt(s[1..], pat, j)
  {
    forall j: nat | j < i - 1 ensures !OccursAt(s[1..], pat, j) {
      OccursShift(s, pat, j + 1);
    }
  }

  /** Cutting `s` around `[i, i + k)` and splicing in `rep` is the same as doing it to the tail. */
  lemma RegroupTail(s: string, rep: string, i: nat, k: nat)
    requires 1 <= i && i + k <= |s|
    ensures [s[0]] + (s[1..][..i - 1] + rep + s[1..][i - 1 + k..]) == s[..i] + rep + s[i + k..]
  {
    var front, back := s[1..][..i - 1], s[1..][i - 1 + k..];
    AppendAssoc([s[0]], front + rep, back);
    AppendAssoc([s[0]], front, rep);
    assert [s[0]] + front == s[..i];
    assert back == s[i + k..];
  }

  /**
   * `replace` of a string pattern: without an occurrence `s` is returned unchanged;
   * otherwise the first occurrence, and only it, is replaced.
   */
  lemma ReplaceFirstCorrect(s: string, pat: string, rep: string)
    requires |pat| > 0
    ensures (forall i: nat | i <= |s| :: !OccursAt(s, pat, i)) ==> ReplaceFirst(s, pat, rep) == s
    ensures forall i: nat | i <= |s| && OccursAt(s, pat, i) && (forall j: nat | j < i :: !OccursAt(s, pat, j)) ::
      ReplaceFirst(s, pat, rep) == s[..i] + rep + s[i + |pat|..]
  {
    if forall i: nat | i <= |s| :: !OccursAt(s, pat, i) {
      ReplaceFirstAbsent(s, pat, rep);
    }
    forall i: nat | i <= |s| && OccursAt(s, pat, i) && (forall j: nat | j < i :: !OccursAt(s, pat, j))
      ensures ReplaceFirst(s, pat, rep) == s[..i] + rep + s[i + |pat|..]
    {
      ReplaceFirstAt(s, pat, rep, i);
    }
  }

  /** Text that does not hold `pat`'s first character is passed over unchanged. */
  lemma {:induction false} ReplaceFirstSkip(a: string, t: string, pat: string, rep: string)
    requires |pat| > 0 && pat[0] !in a
    ensures ReplaceFirst(a + t, pat, rep) == a + ReplaceFirst(t, pat, rep)
    decreases |a|
  {
    if a == [] {
      assert a + t == t;
    } else {
      var x, a' := Uncons(a);
      assert x in a && forall i | 0 <= i < |a'| :: a'[i] == a[i + 1];
      calc {
        ReplaceFirst(a + t, pat, rep);
        { assert a + t == [x] + (a' + t); }
        ReplaceFirst([x] + (a' + t), pat, rep);
        { ReplaceFirstStep(x, a' + t, pat, rep); }
        [x] + ReplaceFirst(a' + t, pat, rep);
        { ReplaceFirstSkip(a', t, pat, rep); }
        [x] + (a' + ReplaceFirst(t, pat, rep));
        a + ReplaceFirst(t, pat, rep);
      }
    }
  }

  /** An occurrence of `pat` at the very start is the one replaced. */
  lemma ReplaceFirstHead(pat: string, b: string, rep: string)
    requires |pat| > 0
    ensures ReplaceFirst(pat + b, pat, rep) == rep + b
  {
    var s := pat + b;
    assert s[..|pat|] == pat;
    assert s[|pat|..] == b;
  }

  /** Past a character that cannot start `pat`, replacement carries on with the rest. */
  lemma ReplaceFirstStep(x: char, t: string, pat: string, rep: string)
    requires |pat| > 0 && x != pat[0]
    ensures ReplaceFirst([x] + t, pat, rep) == [x] + ReplaceFirst(t, pat, rep)
  {
    var s := [x] + t;
    assert s[0] == x && s[1..] == t;
    if |s| < |pat| {
      assert ReplaceFirst(t, pat, rep) == t;
    } else {
      assert s[..|pat|][0] == x;
      assert s[..|pat|] != pat;
    }
  }

  // ---------------------------------------------------------------- sequences

  lemma Uncons<T>(s: seq<T>) returns (x: T, rest: seq<T>)
    requires s != []
    ensures s == [x] + rest
  {
    x, rest := s[0], s[1..];
  }

  /** The empty sequence is a right unit of concatenation. */
  lemma AppendNil<T>(a: seq<T>)
    ensures a + [] == a
  {
  }

  /** Concatenation is associative. */
  lemma AppendAssoc<T>(a: seq<T>, b: seq<T>, c: seq<T>)
    ensures a + b + c == a + (b + c)
  {
  }

}
