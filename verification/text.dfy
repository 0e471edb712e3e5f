/** The Python string primitives the pipeline is built from: `str.strip`,
    `str.split`, `str.join`, `str.replace`, `str.endswith`, ASCII case mapping,
    the `[p.strip() for p in parts if p.strip()]` idiom and the run-collapsing
    `re.sub(r'[..]+', c, s)`. Each is stated by what its result means, so that
    the modules above can reason about them without unfolding. */
module Text {

  /** The characters for which Python's `str.isspace()` holds; `str.strip()`
      removes exactly these and `re`'s `\s` matches exactly these. */
  const Whitespace: set<char> := {
    '\t', '\n', '\U{0B}', '\U{0C}', '\r', '\U{1C}', '\U{1D}', '\U{1E}', '\U{1F}', ' ',
    '\U{85}', '\U{A0}', '\U{1680}',
    '\U{2000}', '\U{2001}', '\U{2002}', '\U{2003}', '\U{2004}', '\U{2005}',
    '\U{2006}', '\U{2007}', '\U{2008}', '\U{2009}', '\U{200A}',
    '\U{2028}', '\U{2029}', '\U{202F}', '\U{205F}', '\U{3000}'
  }

  /** `\d`, restricted to the ASCII digits. */
  predicate IsDigit(c: char) {
    '0' <= c <= '9'
  }

  predicate IsAsciiUpper(c: char) {
    'A' <= c <= 'Z'
  }

  predicate IsAsciiLower(c: char) {
    'a' <= c <= 'z'
  }

  predicate IsBlank(s: string) {
    forall i :: 0 <= i < |s| ==> s[i] in Whitespace
  }

  /** The `n` characters of `s` starting at index `k`. */
  function Window(s: string, k: nat, n: nat): string
    requires k + n <= |s|
  {
    s[k..k + n]
  }

  /** `r` occurs in `s` as a contiguous block. */
  predicate IsInfix(r: string, s: string) {
    exists k: nat :: k + |r| <= |s| && Window(s, k, |r|) == r
  }

  predicate StartsWith(s: string, prefix: string) {
    |prefix| <= |s| && s[..|prefix|] == prefix
  }

  predicate EndsWith(s: string, suffix: string) {
    |suffix| <= |s| && s[|s| - |suffix|..] == suffix
  }

  /** Python's `sub in s`. */
  predicate Contains(s: string, sub: string) {
    exists k: nat :: k + |sub| <= |s| && Window(s, k, |sub|) == sub
  }

  /** Neither end of `s` is a character of `cs`. */
  predicate Bare(s: string, cs: set<char>) {
    |s| > 0 ==> s[0] !in cs && s[|s| - 1] !in cs
  }

  /** What `str.strip()` returns: no whitespace at either end. */
  predicate Stripped(s: string) {
    Bare(s, Whitespace)
  }

  // ---------------------------------------------------------------------------
  // Stripping

  /** `s.lstrip(cs)`: the longest prefix made of `cs` characters is dropped. */
  function TrimLeft(s: string, cs: set<char>): (r: string)
    ensures |r| <= |s| && r == s[|s| - |r|..]
    ensures forall i :: 0 <= i < |s| - |r| ==> s[i] in cs
    ensures |r| > 0 ==> r[0] !in cs
    decreases |s|
  {
    if |s| > 0 && s[0] in cs then TrimLeft(s[1..], cs) else s
  }

  /** `s.rstrip(cs)`: the longest suffix made of `cs` characters is dropped. */
  function TrimRight(s: string, cs: set<char>): (r: string)
    ensures |r| <= |s| && r == s[..|r|]
    ensures forall i :: |r| <= i < |s| ==> s[i] in cs
    ensures |r| > 0 ==> r[|r| - 1] !in cs
    decreases |s|
  {
    if |s| > 0 && s[|s| - 1] in cs then TrimRight(s[..|s| - 1], cs) else s
  }

  /** `s.strip(cs)`: a block of `s` with no `cs` character at either end,
      empty exactly when `s` is made only of `cs` characters. */
  function Trim(s: string, cs: set<char>): (r: string)
    ensures IsInfix(r, s)
    ensures Bare(r, cs)
    ensures r == [] <==> forall i :: 0 <= i < |s| ==> s[i] in cs
  {
    var left := TrimLeft(s, cs);
    var r := TrimRight(left, cs);
    assert Window(s, |s| - |left|, |r|) == r;
    r
  }

  /** `s.strip()`. */
  function Strip(s: string): (r: string)
    ensures IsInfix(r, s) && Stripped(r)
    ensures r == [] <==> IsBlank(s)
  {
    Trim(s, Whitespace)
  }

  lemma TrimOfBare(s: string, cs: set<char>)
    requires Bare(s, cs)
    ensures Trim(s, cs) == s
  {
  }

  /** Stripping twice is stripping once. */
  lemma StripIdempotent(s: string)
    ensures Strip(Strip(s)) == Strip(s)
  {
    TrimOfBare(Strip(s), Whitespace);
  }

  // ---------------------------------------------------------------------------
  // Splitting and joining

  /** `sep.join(parts)`. */
  function Join(parts: seq<string>, sep: string): string
  {
    if |parts| == 0 then ""
    else if |parts| == 1 then parts[0]
    else parts[0] + sep + Join(parts[1..], sep)
  }

  /** `s.split(sep)` for a non-empty separator: occurrences are found left to
      right and never overlap. */
  function Split(s: string, sep: string): (r: seq<string>)
    requires |sep| > 0
    ensures |r| > 0
    decreases |s|
  {
    if |s| < |sep| then [s]
    else if s[..|sep|] == sep then [""] + Split(s[|sep|..], sep)
    else
      var rest := Split(s[1..], sep);
      [[s[0]] + rest[0]] + rest[1..]
  }

  /** Joining two non-empty lists puts exactly one separator between them. */
  lemma {:induction false} JoinAppend(a: seq<string>, b: seq<string>, sep: string)
    requires |a| > 0 && |b| > 0
    ensures Join(a + b, sep) == Join(a, sep) + sep + Join(b, sep)
    decreases |a|
  {
    if |a| == 1 {
      assert a + b == [a[0]] + b;
    } else {
      assert (a + b)[1..] == a[1..] + b;
      JoinAppend(a[1..], b, sep);
    }
  }

  /** `sep.join(s.split(sep)) == s`: splitting loses nothing. */
  lemma {:induction false} JoinSplit(s: string, sep: string)
    requires |sep| > 0
    ensures Join(Split(s, sep), sep) == s
    decreases |s|
  {
    if |s| < |sep| {
    } else if s[..|sep|] == sep {
      var rest := Split(s[|sep|..], sep);
      JoinSplit(s[|sep|..], sep);
      JoinAfterEmpty(rest, sep);
      assert sep + s[|sep|..] == s;
    } else {
      var rest := Split(s[1..], sep);
      JoinSplit(s[1..], sep);
      JoinGluedHead(s[0], rest, sep);
      assert [s[0]] + s[1..] == s;
    }
  }

  lemma JoinAfterEmpty(rest: seq<string>, sep: string)
    requires |rest| > 0
    ensures Join([""] + rest, sep) == sep + Join(rest, sep)
  {
    assert ([""] + rest)[1..] == rest;
  }

  lemma JoinGluedHead(c: char, rest: seq<string>, sep: string)
    requires |rest| > 0
    ensures Join([[c] + rest[0]] + rest[1..], sep) == [c] + Join(rest, sep)
  {
    var r := [[c] + rest[0]] + rest[1..];
    if |rest| > 1 {
      assert r[1..] == rest[1..];
      calc {
        Join(r, sep);
        ([c] + rest[0]) + sep + Join(rest[1..], sep);
        [c] + (rest[0] + sep + Join(rest[1..], sep));
      }
    }
  }

  /** Blank pieces joined by a blank separator give a blank string. */
  lemma {:induction false} JoinOfBlanks(parts: seq<string>, sep: string)
    requires IsBlank(sep)
    requires forall i :: 0 <= i < |parts| ==> IsBlank(parts[i])
    ensures IsBlank(Join(parts, sep))
    decreases |parts|
  {
    if |parts| > 1 {
      JoinOfBlanks(parts[1..], sep);
    }
  }

  /** Every piece stripped of whitespace at both ends. */
  function StripEach(parts: seq<string>): (r: seq<string>)
    ensures |r| == |parts|
    ensures forall i :: 0 <= i < |parts| ==> r[i] == Strip(parts[i])
  {
    seq(|parts|, i requires 0 <= i < |parts| => Strip(parts[i]))
  }

  /** The non-empty pieces, in their original order. */
  function NonEmpty(parts: seq<string>): (r: seq<string>)
    ensures |r| <= |parts|
  {
    if |parts| == 0 then []
    else (if parts[0] != "" then [parts[0]] else []) + NonEmpty(parts[1..])
  }

  /** Python's `[p.strip() for p in parts if p.strip()]`: the stripped,
      non-blank pieces, in their original order (see the lemmas below). */
  function StrippedNonBlank(parts: seq<string>): (r: seq<string>)
    ensures |r| <= |parts|
  {
    NonEmpty(StripEach(parts))
  }

  lemma {:induction false} NonEmptyElements(parts: seq<string>)
    ensures forall i :: 0 <= i < |NonEmpty(parts)| ==> NonEmpty(parts)[i] != "" && NonEmpty(parts)[i] in parts
    decreases |parts|
  {
    if |parts| > 0 {
      NonEmptyElements(parts[1..]);
    }
  }

  lemma {:induction false} NonEmptyEmpty(parts: seq<string>)
    ensures NonEmpty(parts) == [] <==> forall i :: 0 <= i < |parts| ==> parts[i] == ""
    decreases |parts|
  {
    if |parts| > 0 {
      NonEmptyEmpty(parts[1..]);
      assert forall i :: 1 <= i < |parts| ==> parts[i] == parts[1..][i - 1];
    }
  }

  lemma {:induction false} NonEmptyAppend(a: seq<string>, b: seq<string>)
    ensures NonEmpty(a + b) == NonEmpty(a) + NonEmpty(b)
    decreases |a|
  {
    if |a| == 0 {
      assert a + b == b;
    } else {
      assert (a + b)[1..] == a[1..] + b;
      NonEmptyAppend(a[1..], b);
    }
  }

  lemma {:induction false} NonEmptyOfNonEmpty(parts: seq<string>)
    requires forall i :: 0 <= i < |parts| ==> parts[i] != ""
    ensures NonEmpty(parts) == parts
    decreases |parts|
  {
    if |parts| > 0 {
      NonEmptyOfNonEmpty(parts[1..]);
    }
  }

  /** Every kept piece is non-empty and already stripped. */
  lemma StrippedNonBlankElements(parts: seq<string>)
    ensures forall i :: 0 <= i < |StrippedNonBlank(parts)| ==>
      StrippedNonBlank(parts)[i] != "" && Stripped(StrippedNonBlank(parts)[i])
  {
    var stripped := StripEach(parts);
    NonEmptyElements(stripped);
    forall x | x in stripped ensures Stripped(x) {
      var i :| 0 <= i < |stripped| && stripped[i] == x;
    }
  }

  /** Nothing is kept exactly when every piece is blank. */
  lemma StrippedNonBlankEmpty(parts: seq<string>)
    ensures StrippedNonBlank(parts) == [] <==> forall i :: 0 <= i < |parts| ==> IsBlank(parts[i])
  {
    NonEmptyEmpty(StripEach(parts));
  }

  /** The filter commutes with concatenation: pieces keep their order. */
  lemma StrippedNonBlankAppend(a: seq<string>, b: seq<string>)
    ensures StrippedNonBlank(a + b) == StrippedNonBlank(a) + StrippedNonBlank(b)
  {
    StripEachAppend(a, b);
    NonEmptyAppend(StripEach(a), StripEach(b));
  }

  /** What one piece contributes to the filter: its strip, unless it is
      blank. */
  function KeptPiece(p: string): (r: seq<string>)
    ensures r == [] <==> IsBlank(p)
    ensures r != [] ==> r == [Strip(p)]
  {
    if IsBlank(p) then [] else [Strip(p)]
  }

  /** A single piece is kept, stripped, exactly when it is not blank. */
  lemma StrippedNonBlankSingle(p: string)
    ensures StrippedNonBlank([p]) == KeptPiece(p)
  {
    assert StripEach([p]) == [Strip(p)];
    assert NonEmpty([Strip(p)]) == (if Strip(p) != "" then [Strip(p)] else []) + NonEmpty([]);
  }

  /** Each piece contributes its strip, when it is not blank, in its own
      place: what is kept before it comes from the pieces before it and what
      is kept after it from the pieces after it. */
  lemma StrippedNonBlankInOrder(a: seq<string>, p: string, b: seq<string>)
    ensures StrippedNonBlank(a + [p] + b) == StrippedNonBlank(a) + KeptPiece(p) + StrippedNonBlank(b)
  {
    StrippedNonBlankAppend(a + [p], b);
    StrippedNonBlankAppend(a, [p]);
    StrippedNonBlankSingle(p);
  }

  lemma StripEachAppend(a: seq<string>, b: seq<string>)
    ensures StripEach(a + b) == StripEach(a) + StripEach(b)
  {
    var l := StripEach(a + b);
    var r := StripEach(a) + StripEach(b);
    forall i | 0 <= i < |l| ensures l[i] == r[i] {
      if i < |a| {
        assert (a + b)[i] == a[i];
      } else {
        assert (a + b)[i] == b[i - |a|];
      }
    }
  }

  /** Applying the filter to its own output changes nothing. */
  lemma StrippedNonBlankIdempotent(parts: seq<string>)
    ensures StrippedNonBlank(StrippedNonBlank(parts)) == StrippedNonBlank(parts)
  {
    var kept := StrippedNonBlank(parts);
    StrippedNonBlankElements(parts);
    forall i | 0 <= i < |kept| ensures Strip(kept[i]) == kept[i] {
      TrimOfBare(kept[i], Whitespace);
    }
    assert StripEach(kept) == kept;
    NonEmptyOfNonEmpty(kept);
  }

  /** Splitting a non-blank text on a whitespace separator always leaves at
      least one non-blank piece: the fallbacks behind such a split are dead. */
  lemma NonBlankSplitKeepsAPiece(s: string, sep: string)
    requires |sep| > 0 && IsBlank(sep)
    requires !IsBlank(s)
    ensures StrippedNonBlank(Split(s, sep)) != []
  {
    var parts := Split(s, sep);
    StrippedNonBlankEmpty(parts);
    if StrippedNonBlank(parts) == [] {
      JoinOfBlanks(parts, sep);
      JoinSplit(s, sep);
      assert false;
    }
  }

  // ---------------------------------------------------------------------------
  // Replacing and collapsing

  /** `s.replace(pat, repl)` for a non-empty `pat`: left to right, without
      overlaps, every occurrence. */
  function ReplaceAll(s: string, pat: string, repl: string): (r: string)
    requires |pat| > 0
    ensures !Contains(s, pat) ==> r == s
    decreases |s|
  {
    if |s| < |pat| then s
    else if s[..|pat|] == pat then
      assert Window(s, 0, |pat|) == pat;
      repl + ReplaceAll(s[|pat|..], pat, repl)
    else
      assert !Contains(s, pat) ==> !Contains(s[1..], pat) by {
        if Contains(s[1..], pat) {
          var k: nat :| k + |pat| <= |s[1..]| && Window(s[1..], k, |pat|) == pat;
          assert Window(s, k + 1, |pat|) == pat;
        }
      }
      [s[0]] + ReplaceAll(s[1..], pat, repl)
  }

  /** Removing one character everywhere leaves none of it behind. */
  lemma {:induction false} ReplaceCharByNothing(s: string, c: char)
    ensures c !in ReplaceAll(s, [c], "")
    ensures forall d :: d in ReplaceAll(s, [c], "") ==> d in s
    decreases |s|
  {
    if |s| >= 1 {
      ReplaceCharByNothing(s[1..], c);
    }
  }

  /** `re.sub('[B]+', x, s)`: each maximal run of `runs` characters becomes a
      single `x`. */
  function Collapse(s: string, runs: set<char>, x: char): (r: string)
    requires x in runs
    ensures |r| > 0 <==> |s| > 0
    ensures |r| > 0 ==> (r[0] == x <==> s[0] in runs)
    ensures forall i :: 0 <= i < |r| && r[i] in runs ==> r[i] == x
    ensures forall i :: 0 <= i < |r| - 1 ==> !(r[i] in runs && r[i + 1] in runs)
    ensures forall c :: c in r ==> c in s || c == x
    decreases |s|
  {
    if |s| == 0 then ""
    else if s[0] in runs then
      var rest := TrimLeft(s, runs);
      assert forall c :: c in rest ==> c in s;
      [x] + Collapse(rest, runs, x)
    else
      [s[0]] + Collapse(s[1..], runs, x)
  }

  /** Text whose `runs` characters are all `x` and never adjacent is left
      unchanged by collapsing. */
  lemma {:induction false} CollapseOfCollapsed(s: string, runs: set<char>, x: char)
    requires x in runs
    requires forall i :: 0 <= i < |s| && s[i] in runs ==> s[i] == x
    requires forall i :: 0 <= i < |s| - 1 ==> !(s[i] in runs && s[i + 1] in runs)
    ensures Collapse(s, runs, x) == s
    decreases |s|
  {
    if |s| > 0 {
      var tail := s[1..];
      assert forall i :: 0 <= i < |tail| ==> tail[i] == s[i + 1];
      CollapseOfCollapsed(tail, runs, x);
      if s[0] in runs {
        assert |tail| > 0 ==> tail[0] !in runs;
        TrimLeftStops(tail, runs);
      }
    }
  }

  lemma TrimLeftStops(s: string, cs: set<char>)
    requires |s| > 0 ==> s[0] !in cs
    ensures TrimLeft(s, cs) == s
  {
  }

  // ---------------------------------------------------------------------------
  // Case mapping (ASCII letters only)

  function LowerChar(c: char): char {
    if IsAsciiUpper(c) then (c as int + 32) as char else c
  }

  function UpperChar(c: char): char {
    if IsAsciiLower(c) then (c as int - 32) as char else c
  }

  /** `s.lower()` on ASCII letters. */
  function Lower(s: string): (r: string)
    ensures |r| == |s|
    ensures forall i :: 0 <= i < |s| ==> r[i] == LowerChar(s[i])
  {
    seq(|s|, i requires 0 <= i < |s| => LowerChar(s[i]))
  }

  /** Lower-casing twice is lower-casing once. */
  lemma LowerIdempotent(s: string)
    ensures Lower(Lower(s)) == Lower(s)
  {
  }

  /** Case-insensitive suffix test, as `path.lower().endswith(suffix)`. */
  predicate EndsWithIgnoringCase(s: string, lowerSuffix: string) {
    EndsWith(Lower(s), lowerSuffix)
  }
  // ---------------------------------------------------------------------------
  // Decimal numerals

  function DigitChar(d: nat): (c: char)
    requires d < 10
    ensures IsDigit(c) && c as int - '0' as int == d
  {
    ('0' as int + d) as char
  }

  /** `str(n)` for a natural number: its decimal digits, most significant
      first, without leading zeros. */
  function NatToString(n: nat): (s: string)
    ensures |s| > 0
    ensures forall i :: 0 <= i < |s| ==> IsDigit(s[i])
    ensures s[0] == '0' ==> n == 0
    decreases n
  {
    if n < 10 then [DigitChar(n)] else NatToString(n / 10) + [DigitChar(n % 10)]
  }

  /** `str(i)` for any integer: a minus sign before the digits of a
      negative number. */
  function IntToString(i: int): (s: string)
    ensures |s| > 0
    ensures s[0] == '-' <==> i < 0
  {
    if i < 0 then "-" + NatToString(-i) else NatToString(i)
  }

  predicate AllDigits(s: string) {
    forall i :: 0 <= i < |s| ==> IsDigit(s[i])
  }

  /** `int(s)` for a string of decimal digits. */
  function ParseDigits(s: string): nat
    requires AllDigits(s)
    decreases |s|
  {
    if s == [] then 0 else ParseDigits(s[..|s| - 1]) * 10 + (s[|s| - 1] as int - '0' as int)
  }

  /** Reading back the numeral of `n` gives `n`. */
  lemma {:induction false} ParseNatToString(n: nat)
    ensures ParseDigits(NatToString(n)) == n
    decreases n
  {
    var s := NatToString(n);
    if n >= 10 {
      ParseNatToString(n / 10);
      assert s[..|s| - 1] == NatToString(n / 10);
    }
  }

  /** Different numbers have different numerals. */
  lemma NatToStringInjective(m: nat, n: nat)
    requires NatToString(m) == NatToString(n)
    ensures m == n
  {
    ParseNatToString(m);
    ParseNatToString(n);
  }

  /** Different integers print differently, the sign included. */
  lemma IntToStringInjective(i: int, j: int)
    requires IntToString(i) == IntToString(j)
    ensures i == j
  {
    var s := IntToString(i);
    if i < 0 {
      assert j < 0;
      assert NatToString(-i) == s[1..] == NatToString(-j);
      NatToStringInjective(-i, -j);
    } else {
      assert j >= 0;
      NatToStringInjective(i, j);
    }
  }

  /** A string between a fixed prefix and a fixed suffix is determined by
      the whole. */
  lemma Infix(a: string, x: string, y: string, b: string)
    requires a + x + b == a + y + b
    ensures x == y
  {
    var w := a + x + b;
    assert |x| == |y|;
    assert w[|a|..|a| + |x|] == x;
    assert (a + y + b)[|a|..|a| + |y|] == y;
  }
}
