/** Argument validators and the professor/API-key lookup (src/utils.py). The
    process environment is an explicit list of `(name, value)` pairs in the
    order `os.environ.items()` yields them. */
module Utils {
  import opened Wrappers
  import opened Text
  import opened Config

  // ---------------------------------------------------------------------------
  // Safe file names

  /** `\w`, restricted to ASCII: letters, digits and the underscore. */
  predicate IsWordChar(c: char) {
    IsAsciiUpper(c) || IsAsciiLower(c) || IsDigit(c) || c == '_'
  }

  /** The characters `[\w\-_\.]` lets through. */
  predicate IsNameChar(c: char) {
    IsWordChar(c) || c == '-' || c == '.'
  }

  const Underscore: set<char> := {'_'}

  /** `re.sub(r'[^\w\-_\.]', '_', name)`. */
  function ReplaceUnsafe(name: string): (r: string)
    ensures |r| == |name|
    ensures forall i :: 0 <= i < |r| ==> r[i] == (if IsNameChar(name[i]) then name[i] else '_')
  {
    seq(|name|, i requires 0 <= i < |name| => if IsNameChar(name[i]) then name[i] else '_')
  }

  /** What `make_safe_filename` promises of its result: only name characters,
      no upper-case letter, no doubled underscore and no underscore at either
      end. */
  predicate IsSafeFilename(s: string) {
    && (forall i :: 0 <= i < |s| ==> IsNameChar(s[i]) && !IsAsciiUpper(s[i]))
    && (forall i :: 0 <= i < |s| - 1 ==> !(s[i] == '_' && s[i + 1] == '_'))
    && Bare(s, Underscore)
  }

  /** `make_safe_filename`: unsafe characters become underscores, runs of
      underscores collapse to one, underscores at the ends are dropped, and
      the result is lower-cased. */
  function MakeSafeFilename(name: string): (r: string)
    ensures IsSafeFilename(r)
    ensures |r| <= |name|
  {
    SafeSteps(name);
    Lower(Trim(Collapse(ReplaceUnsafe(name), Underscore, '_'), Underscore))
  }

  lemma SafeSteps(name: string)
    ensures var r := Lower(Trim(Collapse(ReplaceUnsafe(name), Underscore, '_'), Underscore));
      IsSafeFilename(r) && |r| <= |name|
  {
    var replaced := ReplaceUnsafe(name);
    var collapsed := Collapse(replaced, Underscore, '_');
    CollapsedNameChars(replaced);
    CollapseNoLonger(replaced, Underscore, '_');
    var trimmed := Trim(collapsed, Underscore);
    TrimmedNameChars(collapsed);
    LowerKeepsSafe(trimmed);
  }

  /** Trimming the underscores of collapsed text keeps its two properties,
      leaves no underscore at either end and never lengthens it. */
  lemma TrimmedNameChars(s: string)
    requires forall i :: 0 <= i < |s| ==> IsNameChar(s[i])
    requires forall i :: 0 <= i < |s| - 1 ==> !(s[i] == '_' && s[i + 1] == '_')
    ensures var t := Trim(s, Underscore);
      && (forall i :: 0 <= i < |t| ==> IsNameChar(t[i]))
      && (forall i :: 0 <= i < |t| - 1 ==> !(t[i] == '_' && t[i + 1] == '_'))
      && Bare(t, Underscore) && |t| <= |s|
  {
    var t := Trim(s, Underscore);
    InfixKeepsNameChars(t, s);
    var k: nat :| k + |t| <= |s| && Window(s, k, |t|) == t;
  }

  /** Collapsing underscores keeps only name characters and leaves no two
      underscores side by side. */
  lemma CollapsedNameChars(s: string)
    requires forall i :: 0 <= i < |s| ==> IsNameChar(s[i])
    ensures var c := Collapse(s, Underscore, '_');
      && (forall i :: 0 <= i < |c| ==> IsNameChar(c[i]))
      && (forall i :: 0 <= i < |c| - 1 ==> !(c[i] == '_' && c[i + 1] == '_'))
  {
    var c := Collapse(s, Underscore, '_');
    forall i | 0 <= i < |c|
      ensures IsNameChar(c[i])
    {
      assert c[i] in c;
      if c[i] != '_' {
        var j :| 0 <= j < |s| && s[j] == c[i];
      }
    }
  }

  lemma CollapseNoLonger(s: string, runs: set<char>, x: char)
    requires x in runs
    ensures |Collapse(s, runs, x)| <= |s|
    decreases |s|
  {
    if |s| > 0 {
      if s[0] in runs {
        CollapseNoLonger(TrimLeft(s, runs), runs, x);
      } else {
        CollapseNoLonger(s[1..], runs, x);
      }
    }
  }

  /** A block of collapsed, replaced text keeps its two properties. */
  lemma InfixKeepsNameChars(r: string, s: string)
    requires IsInfix(r, s)
    requires forall i :: 0 <= i < |s| ==> IsNameChar(s[i])
    requires forall i :: 0 <= i < |s| - 1 ==> !(s[i] == '_' && s[i + 1] == '_')
    ensures forall i :: 0 <= i < |r| ==> IsNameChar(r[i])
    ensures forall i :: 0 <= i < |r| - 1 ==> !(r[i] == '_' && r[i + 1] == '_')
  {
    var k: nat :| k + |r| <= |s| && Window(s, k, |r|) == r;
    assert forall i :: 0 <= i < |r| ==> r[i] == s[k + i];
  }

  /** Lower-casing maps name characters to name characters that are not
      upper case, and neither creates nor removes underscores. */
  lemma LowerKeepsSafe(s: string)
    requires forall i :: 0 <= i < |s| ==> IsNameChar(s[i])
    requires forall i :: 0 <= i < |s| - 1 ==> !(s[i] == '_' && s[i + 1] == '_')
    requires Bare(s, Underscore)
    ensures IsSafeFilename(Lower(s))
  {
  }

  /** A safe name is its own safe name, so `make_safe_filename` is
      idempotent. */
  lemma SafeFilenameFixpoint(s: string)
    requires IsSafeFilename(s)
    ensures MakeSafeFilename(s) == s
  {
    calc {
      MakeSafeFilename(s);
      Lower(Trim(Collapse(ReplaceUnsafe(s), Underscore, '_'), Underscore));
      { ReplaceUnsafeOfSafe(s); }
      Lower(Trim(Collapse(s, Underscore, '_'), Underscore));
      { CollapseOfCollapsed(s, Underscore, '_'); }
      Lower(Trim(s, Underscore));
      { TrimOfBare(s, Underscore); }
      Lower(s);
      { LowerOfLower(s); }
      s;
    }
  }

  lemma ReplaceUnsafeOfSafe(s: string)
    requires forall i :: 0 <= i < |s| ==> IsNameChar(s[i])
    ensures ReplaceUnsafe(s) == s
  {
  }

  lemma LowerOfLower(s: string)
    requires forall i :: 0 <= i < |s| ==> !IsAsciiUpper(s[i])
    ensures Lower(s) == s
  {
  }

  lemma MakeSafeFilenameIdempotent(name: string)
    ensures MakeSafeFilename(MakeSafeFilename(name)) == MakeSafeFilename(name)
  {
    SafeFilenameFixpoint(MakeSafeFilename(name));
  }

  // ---------------------------------------------------------------------------
  // Page numbers

  /** One or more ASCII digits. */
  predicate IsNumber(s: string) {
    |s| > 0 && AllDigits(s)
  }

  /** `\d+(-\d+)?` matched against all of `s`. */
  predicate IsPageRange(s: string) {
    IsNumber(s) || exists i :: 0 < i < |s| && s[i] == '-' && IsNumber(s[..i]) && IsNumber(s[i + 1..])
  }

  /** `re.match(r"^\d+(-\d+)?$", s)`: `$` also matches before a final
      newline, so one trailing `"\n"` is accepted. */
  predicate PageNumsMatch(s: string) {
    IsPageRange(s) || (|s| > 0 && s[|s| - 1] == '\n' && IsPageRange(s[..|s| - 1]))
  }

  /** The length of the run of digits that starts `s`. */
  function DigitRun(s: string): (n: nat)
    ensures n <= |s|
    ensures AllDigits(s[..n])
    ensures n < |s| ==> !IsDigit(s[n])
    decreases |s|
  {
    if |s| > 0 && IsDigit(s[0]) then
      var n := 1 + DigitRun(s[1..]);
      assert s[..n] == [s[0]] + s[1..][..n - 1];
      n
    else 0
  }

  /** The digits of `s` end at the first non-digit. */
  lemma {:induction false} DigitRunOf(s: string, n: nat)
    requires n <= |s| && AllDigits(s[..n]) && (n < |s| ==> !IsDigit(s[n]))
    ensures DigitRun(s) == n
    decreases n
  {
    if n > 0 {
      assert s[..n][0] == s[0];
      var tail := s[1..];
      assert tail[..n - 1] == s[1..n];
      var digits, rest := s[..n], tail[..n - 1];
      assert forall k :: 0 <= k < |rest| ==> rest[k] == digits[k + 1];
      DigitRunOf(tail, n - 1);
    }
  }

  /** The scan the regular expression performs: digits, then either the end
      or a dash and more digits, then the end or a final newline. */
  function ScanPageNums(s: string): bool {
    var a := DigitRun(s);
    if a == 0 then false
    else
      var rest := s[a..];
      if rest == [] || rest == "\n" then true
      else if rest[0] != '-' then false
      else
        var b := DigitRun(rest[1..]);
        b > 0 && (rest[1 + b..] == [] || rest[1 + b..] == "\n")
  }

  /** A page range is accepted by the scan, with or without a final
      newline. */
  lemma ScanAcceptsRange(s: string)
    requires IsPageRange(s)
    ensures ScanPageNums(s)
    ensures ScanPageNums(s + "\n")
  {
    if IsNumber(s) {
      ScanAcceptsNumber(s);
    } else {
      var i :| 0 < i < |s| && s[i] == '-' && IsNumber(s[..i]) && IsNumber(s[i + 1..]);
      ScanAcceptsDashed(s, i, "");
      ScanAcceptsDashed(s, i, "\n");
      assert s + "" == s;
    }
  }

  lemma ScanAcceptsNumber(s: string)
    requires IsNumber(s)
    ensures ScanPageNums(s)
    ensures ScanPageNums(s + "\n")
  {
    var t := s + "\n";
    DigitRunOf(s, |s|);
    assert t[..|s|] == s;
    DigitRunOf(t, |s|);
    assert t[|s|..] == "\n";
  }

  /** `s` is two numbers around the dash at `i`, followed by `tail`. */
  lemma ScanAcceptsDashed(s: string, i: nat, tail: string)
    requires 0 < i < |s| && s[i] == '-' && IsNumber(s[..i]) && IsNumber(s[i + 1..])
    requires tail == "" || tail == "\n"
    ensures ScanPageNums(s + tail)
  {
    var t := s + tail;
    assert t[..i] == s[..i];
    DigitRunOf(t, i);
    var rest := t[i..];
    var n := |s| - i - 1;
    assert rest[1..] == s[i + 1..] + tail;
    assert rest[1..][..n] == s[i + 1..];
    DigitRunOf(rest[1..], n);
    assert rest[1 + n..] == tail;
  }

  /** Whatever the scan accepts is a page range, possibly followed by one
      newline. */
  lemma ScanOnlyAcceptsRange(s: string)
    requires ScanPageNums(s)
    ensures PageNumsMatch(s)
  {
    var a := DigitRun(s);
    var rest := s[a..];
    if rest == [] {
      assert s == s[..a];
    } else if rest == "\n" {
      assert s[..|s| - 1] == s[..a];
    } else {
      var b := DigitRun(rest[1..]);
      var e := a + 1 + b;
      assert s[..e][..a] == s[..a];
      assert s[..e][a + 1..] == rest[1..][..b];
      if rest[1 + b..] == [] {
        assert s == s[..e];
      } else {
        assert s[..|s| - 1] == s[..e];
      }
    }
  }

  lemma ScanMatchesPattern(s: string)
    ensures ScanPageNums(s) <==> PageNumsMatch(s)
  {
    if ScanPageNums(s) {
      ScanOnlyAcceptsRange(s);
    }
    if IsPageRange(s) {
      ScanAcceptsRange(s);
    } else if |s| > 0 && s[|s| - 1] == '\n' && IsPageRange(s[..|s| - 1]) {
      ScanAcceptsRange(s[..|s| - 1]);
      assert s[..|s| - 1] + "\n" == s;
    }
  }

  const PageNumsError: string := "Letters, commas, and other symbols not allowed."

  /** `validate_page_nums`: the input, unchanged, when it is a page number or
      a range of them; the argument error otherwise. */
  function ValidatePageNums(value: string): (r: Result<string, string>)
    ensures r.Ok? <==> PageNumsMatch(value)
    ensures r.Ok? ==> r.value == value
    ensures r.Err? ==> r.error == PageNumsError
  {
    ScanMatchesPattern(value);
    if ScanPageNums(value) then Ok(value) else Err(PageNumsError)
  }

  /** A comma, as in "1,3", is rejected; a trailing newline is not. */
  lemma PageNumsExamples(listed: string, ranged: string)
    requires listed == "1,3" && ranged == "2-5\n"
    ensures ValidatePageNums(listed).Err?
    ensures ValidatePageNums(ranged) == Ok(ranged)
  {
    assert DigitRun(listed[1..]) == 0;
    assert DigitRun(listed) == 1;
    var core := ranged[..3];
    assert IsNumber(core[..1]) && IsNumber(core[2..]) && core[1] == '-';
    assert IsPageRange(core);
  }

  // ---------------------------------------------------------------------------
  // Language codes

  const CodeLengthError: string := "Language code must be exactly 2 characters (e.g., CE, JK, etc.)"
  const SameLanguageError: string := "Source and target languages cannot be the same."

  function InvalidCodeError(side: string, code: char): string {
    "Invalid " + side + " language code '" + [code] + "'. Use C, J, K, or E."
  }

  /** `parse_language_code`: two letters, each upper-cased and looked up,
      naming two different languages. */
  function ParseLanguageCode(value: string): (r: Result<(string, string), string>)
    ensures r.Ok? <==> |value| == 2 && UpperChar(value[0]) in LanguageMap && UpperChar(value[1]) in LanguageMap
                       && UpperChar(value[0]) != UpperChar(value[1])
    ensures r.Ok? ==> r.value.0 == LanguageMap[UpperChar(value[0])] && r.value.1 == LanguageMap[UpperChar(value[1])]
    ensures r.Ok? ==> r.value.0 != r.value.1
    ensures |value| != 2 ==> r == Err(CodeLengthError)
    ensures |value| == 2 && UpperChar(value[0]) !in LanguageMap
            ==> r == Err(InvalidCodeError("source", UpperChar(value[0])))
    ensures |value| == 2 && UpperChar(value[0]) in LanguageMap && UpperChar(value[1]) !in LanguageMap
            ==> r == Err(InvalidCodeError("target", UpperChar(value[1])))
    ensures |value| == 2 && UpperChar(value[0]) in LanguageMap && UpperChar(value[0]) == UpperChar(value[1])
            ==> r == Err(SameLanguageError)
  {
    if |value| != 2 then Err(CodeLengthError)
    else
      var source := UpperChar(value[0]);
      var target := UpperChar(value[1]);
      if source !in LanguageMap then Err(InvalidCodeError("source", source))
      else if target !in LanguageMap then Err(InvalidCodeError("target", target))
      else if source == target then Err(SameLanguageError)
      else
        LanguageNamesDistinct(source, target);
        Ok((LanguageMap[source], LanguageMap[target]))
  }

  /** The code is read without regard to letter case: two codes that agree
      after upper-casing give the same result, error messages included. */
  lemma LanguageCodeIgnoresCase(a: string, b: string)
    requires |a| == |b|
    requires forall i :: 0 <= i < |a| ==> UpperChar(a[i]) == UpperChar(b[i])
    ensures ParseLanguageCode(a) == ParseLanguageCode(b)
  {
  }

  /** "ce" asks for Chinese to English. */
  lemma LanguageCodeExample(code: string)
    requires code == "ce"
    ensures ParseLanguageCode(code) == Ok(("Chinese", "English"))
  {
    assert UpperChar(code[0]) == 'C' && UpperChar(code[1]) == 'E';
  }

  // ---------------------------------------------------------------------------
  // Professors and API keys

  type Env = seq<(string, string)>

  /** `os.getenv(key)`: the value of the first entry with that name. */
  function EnvGet(env: Env, key: string): (r: Option<string>)
    ensures r.None? <==> forall i :: 0 <= i < |env| ==> env[i].0 != key
    ensures r.Some? ==> exists i :: 0 <= i < |env| && env[i] == (key, r.value)
    decreases |env|
  {
    if env == [] then None
    else if env[0].0 == key then Some(env[0].1)
    else
      var r := EnvGet(env[1..], key);
      assert forall i :: 0 < i < |env| ==> env[i] == env[1..][i - 1];
      r
  }

  /** One entry of the professors table. */
  datatype Professor = Professor(name: string, primaryKey: string, backupKey: string, id: string, safeName: string)

  const ProfPrefix: string := "PROF_"
  const NameSuffix: string := "_NAME"

  /** A variable of the form `PROF_<id>_NAME`. */
  predicate IsNameVariable(key: string) {
    StartsWith(key, ProfPrefix) && EndsWith(key, NameSuffix)
  }

  /** `key[5:-5]`, with Python's slice clamping: empty for `PROF_NAME`. */
  function ProfId(key: string): string {
    if |key| >= 10 then key[5..|key| - 5] else ""
  }

  function PrimaryKeyVariable(id: string): string {
    ProfPrefix + id + "_KEY"
  }

  function BackupKeyVariable(id: string): string {
    ProfPrefix + id + "_BACKUP_KEY"
  }

  /** The entry a `PROF_<id>_NAME=value` variable contributes. */
  function ProfessorOf(key: string, value: string): (p: Professor)
    ensures p.name == value && p.safeName == MakeSafeFilename(value)
    ensures p.primaryKey == PrimaryKeyVariable(p.id) && p.backupKey == BackupKeyVariable(p.id)
  {
    var id := ProfId(key);
    Professor(value, PrimaryKeyVariable(id), BackupKeyVariable(id), id, MakeSafeFilename(value))
  }

  /** A table keyed by safe name, in insertion order. */
  predicate DistinctSafeNames(table: seq<Professor>) {
    forall i, j :: 0 <= i < j < |table| ==> table[i].safeName != table[j].safeName
  }

  /** The position of the entry with safe name `safeName`. */
  function IndexOfSafeName(table: seq<Professor>, safeName: string): (r: Option<nat>)
    ensures r.None? <==> forall i :: 0 <= i < |table| ==> table[i].safeName != safeName
    ensures r.Some? ==> r.value < |table| && table[r.value].safeName == safeName
    decreases |table|
  {
    if table == [] then None
    else if table[|table| - 1].safeName == safeName then Some(|table| - 1)
    else IndexOfSafeName(table[..|table| - 1], safeName)
  }

  /** `professors[p.safeName] = p`: an existing entry is replaced where it
      stands, a new one goes at the end; every other entry keeps its place. */
  function Put(table: seq<Professor>, p: Professor): (r: seq<Professor>)
    requires DistinctSafeNames(table)
    ensures DistinctSafeNames(r)
    ensures p in r
    ensures |table| <= |r| <= |table| + 1
    ensures forall k :: 0 <= k < |table| && table[k].safeName != p.safeName ==> r[k] == table[k]
    ensures forall k :: 0 <= k < |r| ==> r[k] == p || (k < |table| && r[k] == table[k] && table[k].safeName != p.safeName)
  {
    match IndexOfSafeName(table, p.safeName)
    case Some(i) =>
      var r := table[i := p];
      assert forall k :: 0 <= k < |table| && k != i ==> table[k].safeName != p.safeName;
      assert r[i] == p;
      r
    case None =>
      var r := table + [p];
      assert r[|table|] == p;
      assert forall k :: 0 <= k < |table| ==> r[k] == table[k];
      r
  }

  /** The `for key, value in os.environ.items()` loop of
      `load_professor_config`, over the first `|items|` variables. */
  function LoadFrom(items: Env, env: Env): (table: seq<Professor>)
    ensures DistinctSafeNames(table)
    decreases |items|
  {
    if items == [] then []
    else
      var table := LoadFrom(items[..|items| - 1], env);
      var (key, value) := items[|items| - 1];
      if IsNameVariable(key) && EnvGet(env, PrimaryKeyVariable(ProfId(key))).Some?
      then Put(table, ProfessorOf(key, value))
      else table
  }

  /** `load_professor_config`. */
  function LoadProfessorConfig(env: Env): (table: seq<Professor>)
    ensures DistinctSafeNames(table)
  {
    LoadFrom(env, env)
  }

  /** Every entry comes from a `PROF_<id>_NAME` variable whose `PROF_<id>_KEY`
      is set; it is keyed by the safe form of the name. */
  lemma {:induction false} LoadedProfessorsAreConfigured(items: Env, env: Env, p: Professor)
    requires p in LoadFrom(items, env)
    ensures exists i :: 0 <= i < |items| && IsNameVariable(items[i].0) && p == ProfessorOf(items[i].0, items[i].1)
    ensures EnvGet(env, p.primaryKey).Some?
    ensures p.safeName == MakeSafeFilename(p.name)
    decreases |items|
  {
    var prefix := items[..|items| - 1];
    var (key, value) := items[|items| - 1];
    var table := LoadFrom(prefix, env);
    var added := IsNameVariable(key) && EnvGet(env, PrimaryKeyVariable(ProfId(key))).Some?;
    assert LoadFrom(items, env) == if added then Put(table, ProfessorOf(key, value)) else table;
    if added && p == ProfessorOf(key, value) {
      assert items[|items| - 1] == (key, value);
    } else {
      if added {
        var r := Put(table, ProfessorOf(key, value));
        var k :| 0 <= k < |r| && r[k] == p;
        assert p == table[k];
      }
      LoadedProfessorsAreConfigured(prefix, env, p);
      var i :| 0 <= i < |prefix| && IsNameVariable(prefix[i].0) && p == ProfessorOf(prefix[i].0, prefix[i].1);
      assert items[i] == prefix[i];
    }
  }

  /** Every configured professor is in the table, under the safe form of its
      name: the entry there may come from a later variable with the same
      safe name. */
  lemma {:induction false} ConfiguredProfessorsAreLoaded(items: Env, env: Env, i: int)
    requires 0 <= i < |items| && IsNameVariable(items[i].0)
    requires EnvGet(env, PrimaryKeyVariable(ProfId(items[i].0))).Some?
    ensures exists q :: q in LoadFrom(items, env) && q.safeName == MakeSafeFilename(items[i].1)
    decreases |items|
  {
    var prefix := items[..|items| - 1];
    var (key, value) := items[|items| - 1];
    var p := ProfessorOf(key, value);
    var added := IsNameVariable(key) && EnvGet(env, PrimaryKeyVariable(ProfId(key))).Some?;
    var table := LoadFrom(prefix, env);
    assert LoadFrom(items, env) == if added then Put(table, p) else table;
    var safeName := MakeSafeFilename(items[i].1);
    if i < |items| - 1 {
      assert items[i] == prefix[i];
      ConfiguredProfessorsAreLoaded(prefix, env, i);
      var q :| q in table && q.safeName == safeName;
      if added {
        PutKeepsSafeName(table, p, q);
      }
    } else {
      assert p in Put(table, p);
    }
  }

  /** Putting an entry keeps every safe name the table already had. */
  lemma PutKeepsSafeName(table: seq<Professor>, p: Professor, q: Professor)
    requires DistinctSafeNames(table) && q in table
    ensures exists q' :: q' in Put(table, p) && q'.safeName == q.safeName
  {
    var r := Put(table, p);
    if q.safeName == p.safeName {
      assert p in r;
    } else {
      var k :| 0 <= k < |table| && table[k] == q;
      assert r[k] == q;
    }
  }

  /** The lookup of `get_api_key`: by safe name first, then by the full name
      ignoring case, taking the first such entry. */
  function FindProfessor(table: seq<Professor>, professorName: string): (r: Option<Professor>)
    ensures r.Some? ==> r.value in table
    ensures r.Some? ==> r.value.safeName == professorName || Lower(r.value.name) == Lower(professorName)
    ensures r.None? ==> forall q :: q in table ==> q.safeName != professorName && Lower(q.name) != Lower(professorName)
  {
    match IndexOfSafeName(table, professorName)
    case Some(i) => Some(table[i])
    case None => FirstByName(table, professorName)
  }

  function FirstByName(table: seq<Professor>, professorName: string): (r: Option<Professor>)
    ensures r.Some? ==> r.value in table && Lower(r.value.name) == Lower(professorName)
    ensures r.None? ==> forall q :: q in table ==> Lower(q.name) != Lower(professorName)
    decreases |table|
  {
    if table == [] then None
    else if Lower(table[0].name) == Lower(professorName) then Some(table[0])
    else FirstByName(table[1..], professorName)
  }

  /** A safe-name match wins over a full-name match of another entry. */
  lemma SafeNameFirst(table: seq<Professor>, professorName: string, p: Professor)
    requires DistinctSafeNames(table)
    requires p in table && p.safeName == professorName
    ensures FindProfessor(table, professorName) == Some(p)
  {
    var i := IndexOfSafeName(table, professorName).value;
    var j :| 0 <= j < |table| && table[j] == p;
    assert i == j;
  }

  function JoinComma(parts: seq<string>): string {
    Join(parts, ", ")
  }

  /** The message of the `ValueError` raised when no entry matches. */
  function NotFoundError(table: seq<Professor>, professorName: string): string {
    if table == [] then
      "No professors configured. Please set up professor configuration in .env file.\n"
        + "Example: PROF_1_NAME=John Doe, PROF_1_KEY=your_api_key"
    else
      "Professor '" + professorName + "' not found. Available professors:\n"
        + "Full names: " + JoinComma(seq(|table|, i requires 0 <= i < |table| => table[i].name)) + "\n"
        + "CLI names: " + JoinComma(seq(|table|, i requires 0 <= i < |table| => table[i].safeName))
  }

  /** A set variable with a non-empty value (an empty value is falsy). */
  function NonEmptyValue(env: Env, key: string): Option<string> {
    match EnvGet(env, key)
    case Some(v) => if v != [] then Some(v) else None
    case None => None
  }

  /** The key of a found professor: the primary key when set and non-empty,
      else the backup key, else the `ValueError`. */
  function KeyFor(env: Env, p: Professor): (r: Result<(string, string), string>)
    ensures r.Ok? ==> r.value.1 == p.name && r.value.0 != []
    ensures r.Ok? ==> EnvGet(env, p.primaryKey) == Some(r.value.0) || EnvGet(env, p.backupKey) == Some(r.value.0)
    ensures NonEmptyValue(env, p.primaryKey).Some? ==> r == Ok((NonEmptyValue(env, p.primaryKey).value, p.name))
    ensures r.Err? <==> NonEmptyValue(env, p.primaryKey).None? && NonEmptyValue(env, p.backupKey).None?
    ensures r.Err? ==> r.error == NoKeyError(p)
  {
    match NonEmptyValue(env, p.primaryKey)
    case Some(k) => Ok((k, p.name))
    case None =>
      match NonEmptyValue(env, p.backupKey)
      case Some(k) => Ok((k, p.name))
      case None => Err(NoKeyError(p))
  }

  /** The message of the `ValueError` raised when neither key is set. */
  function NoKeyError(p: Professor): string {
    "No API key found for professor '" + p.name + "'. Please set " + p.primaryKey + " in your .env file."
  }

  /** `get_api_key`: the key and the full name of the professor asked for. */
  function GetApiKey(env: Env, professorName: string): (r: Result<(string, string), string>)
    ensures r.Ok? ==> exists p :: p in LoadProfessorConfig(env) && KeyFor(env, p) == r
                                  && (p.safeName == professorName || Lower(p.name) == Lower(professorName))
    ensures FindProfessor(LoadProfessorConfig(env), professorName).None?
            ==> r == Err(NotFoundError(LoadProfessorConfig(env), professorName))
    ensures FindProfessor(LoadProfessorConfig(env), professorName).Some?
            ==> r == KeyFor(env, FindProfessor(LoadProfessorConfig(env), professorName).value)
    ensures forall p :: p in LoadProfessorConfig(env) && p.safeName == professorName ==> r == KeyFor(env, p)
    ensures r.Err? && FindProfessor(LoadProfessorConfig(env), professorName).Some?
            ==> r.error == NoKeyError(FindProfessor(LoadProfessorConfig(env), professorName).value)
  {
    var table := LoadProfessorConfig(env);
    assert forall p :: p in table && p.safeName == professorName ==> FindProfessor(table, professorName) == Some(p) by {
      forall p | p in table && p.safeName == professorName
        ensures FindProfessor(table, professorName) == Some(p)
      {
        SafeNameFirst(table, professorName, p);
      }
    }
    match FindProfessor(table, professorName)
    case None => Err(NotFoundError(table, professorName))
    case Some(p) => KeyFor(env, p)
  }

  /** A returned key is set in the environment, under the professor's primary
      variable, or under the backup variable only when the primary is unset
      or empty. */
  lemma ApiKeyComesFromEnv(env: Env, professorName: string)
    requires GetApiKey(env, professorName).Ok?
    ensures var (key, name) := GetApiKey(env, professorName).value;
      exists p :: p in LoadProfessorConfig(env) && p.name == name && key != []
        && (EnvGet(env, p.primaryKey) == Some(key)
            || (NonEmptyValue(env, p.primaryKey).None? && EnvGet(env, p.backupKey) == Some(key)))
  {
    var table := LoadProfessorConfig(env);
    var p := FindProfessor(table, professorName).value;
    assert GetApiKey(env, professorName) == KeyFor(env, p);
  }
}
