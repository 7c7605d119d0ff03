/** `normalizar_nombres_columnas` (data_cleaning.py:103-161): snake-case
    normalisation of a list of column labels. */
module ColumnNames {
  import opened Text
  import opened Frames

  predicate NotAlnum(c: char) { !IsAlnum(c) }

  predicate IsUnderscore(c: char) { c == '_' }

  /** No two adjacent underscores. */
  predicate NoDoubleUnderscore(s: string) {
    forall i, j :: 0 <= i < |s| && 0 <= j < |s| && j == i + 1 ==> !(s[i] == '_' && s[j] == '_')
  }

  /** The alphanumeric characters of `s`, in order. */
  function Alnums(s: string): string {
    if s == [] then []
    else (if IsAlnum(s[0]) then [s[0]] else []) + Alnums(s[1..])
  }

  /** `re.sub(r"[^0-9a-zA-Z]+", "_", s)`: every maximal run of characters
      outside [0-9a-zA-Z] becomes a single underscore. */
  function ReplaceNonAlnumRuns(s: string): (r: string)
    ensures |r| <= |s| && (r == [] <==> s == [])
    decreases |s|
  {
    if s == [] then []
    else if NotAlnum(s[0]) then "_" + ReplaceNonAlnumRuns(TrimStart(s[1..], NotAlnum))
    else [s[0]] + ReplaceNonAlnumRuns(s[1..])
  }

  /** Alphanumerics and underscores only. */
  predicate AlnumOrUnderscore(s: string) {
    forall i :: 0 <= i < |s| ==> IsAlnum(s[i]) || s[i] == '_'
  }

  /** Putting a character in front of a string of alphanumerics and single
      underscores keeps it so, unless it doubles an underscore. */
  lemma ConsShape(c: char, t: string)
    requires IsAlnum(c) || c == '_'
    requires AlnumOrUnderscore(t) && NoDoubleUnderscore(t)
    requires c == '_' ==> t == [] || t[0] != '_'
    ensures AlnumOrUnderscore([c] + t) && NoDoubleUnderscore([c] + t)
  {
    var r := [c] + t;
    forall i | 0 <= i < |r| ensures IsAlnum(r[i]) || r[i] == '_' {
      if i > 0 { assert r[i] == t[i - 1]; }
    }
    forall i, j | 0 <= i < |r| && 0 <= j < |r| && j == i + 1 ensures !(r[i] == '_' && r[j] == '_') {
      if i > 0 { assert r[i] == t[i - 1] && r[j] == t[j - 1]; }
    }
  }

  /** The replacement begins as the input does, with an underscore for a
      leading run of other characters. */
  lemma ReplaceFirst(s: string)
    requires s != []
    ensures var r := ReplaceNonAlnumRuns(s);
      r != [] && r[0] == (if IsAlnum(s[0]) then s[0] else '_')
  {
  }

  /** The replacement leaves only alphanumerics and single underscores. */
  lemma {:induction false} ReplaceShape(s: string)
    ensures AlnumOrUnderscore(ReplaceNonAlnumRuns(s)) && NoDoubleUnderscore(ReplaceNonAlnumRuns(s))
    decreases |s|
  {
    if s != [] {
      if IsAlnum(s[0]) {
        var t := ReplaceNonAlnumRuns(s[1..]);
        ReplaceShape(s[1..]);
        ConsShape(s[0], t);
        assert ReplaceNonAlnumRuns(s) == [s[0]] + t;
      } else {
        var rest := TrimStart(s[1..], NotAlnum);
        var t := ReplaceNonAlnumRuns(rest);
        ReplaceShape(rest);
        if rest != [] {
          ReplaceFirst(rest);
        }
        ConsShape('_', t);
        assert ReplaceNonAlnumRuns(s) == "_" + t;
      }
    }
  }

  lemma AlnumsCons(c: char, t: string)
    ensures Alnums([c] + t) == (if IsAlnum(c) then [c] else []) + Alnums(t)
  {
    assert ([c] + t)[1..] == t;
  }

  /** The replacement keeps every alphanumeric of the input, in order. */
  lemma {:induction false} ReplaceKeepsAlnums(s: string)
    ensures Alnums(ReplaceNonAlnumRuns(s)) == Alnums(s)
    decreases |s|
  {
    if s != [] {
      if IsAlnum(s[0]) {
        var t := ReplaceNonAlnumRuns(s[1..]);
        assert ReplaceNonAlnumRuns(s) == [s[0]] + t;
        ReplaceKeepsAlnums(s[1..]);
        AlnumsCons(s[0], t);
      } else {
        var rest := TrimStart(s[1..], NotAlnum);
        var t := ReplaceNonAlnumRuns(rest);
        assert ReplaceNonAlnumRuns(s) == "_" + t;
        assert Alnums(s) == Alnums(s[1..]);
        AlnumsOfSkipped(s[1..], rest);
        ReplaceKeepsAlnums(rest);
        AlnumsCons('_', t);
      }
    }
  }

  /** Skipping a run of non-alphanumerics loses no alphanumeric. */
  lemma {:induction false} AlnumsOfSkipped(s: string, rest: string)
    requires rest == TrimStart(s, NotAlnum)
    ensures Alnums(rest) == Alnums(s)
    decreases |s|
  {
    if s != [] && NotAlnum(s[0]) {
      assert rest == TrimStart(s[1..], NotAlnum);
      assert Alnums(s) == Alnums(s[1..]);
      AlnumsOfSkipped(s[1..], rest);
    }
  }

  /** `re.sub(r"_+", "_", s)`: every run of underscores becomes one. */
  function CollapseUnderscores(s: string): (r: string)
    ensures |r| <= |s| && (r == [] <==> s == [])
    decreases |s|
  {
    if s == [] then []
    else if s[0] == '_' then "_" + CollapseUnderscores(TrimStart(s[1..], IsUnderscore))
    else [s[0]] + CollapseUnderscores(s[1..])
  }

  /** The five steps of data_cleaning.py:138-150, in order. They are given
      as data and applied by `ApplySteps` so that a use of `NormalizeName`
      does not expand into the five nested calls at every occurrence; the
      lemma `NormalizeNameUnfold` states the composition once, for the proofs
      that need it. */
  datatype Step = StripSpaces | ReplaceRuns | LowerCase | CollapseRuns | StripUnderscores

  const NameSteps: seq<Step> := [StripSpaces, ReplaceRuns, LowerCase, CollapseRuns, StripUnderscores]

  function ApplyStep(st: Step, s: string): string {
    match st
    case StripSpaces => Strip(s, IsSpace)
    case ReplaceRuns => ReplaceNonAlnumRuns(s)
    case LowerCase => Lower(s)
    case CollapseRuns => CollapseUnderscores(s)
    case StripUnderscores => Strip(s, IsUnderscore)
  }

  function ApplySteps(steps: seq<Step>, s: string): string
    decreases |steps|
  {
    if steps == [] then s else ApplySteps(steps[1..], ApplyStep(steps[0], s))
  }

  /** `normalizar_nombres_columnas` on one label: the five steps in order. */
  function NormalizeName(name: string): string {
    ApplySteps(NameSteps, name)
  }

  lemma NormalizeNameUnfold(name: string)
    ensures NormalizeName(name) == Strip(CollapseUnderscores(Lower(ReplaceNonAlnumRuns(Strip(name, IsSpace)))), IsUnderscore)
  {
    var s1 := Strip(name, IsSpace);
    var s2 := ReplaceNonAlnumRuns(s1);
    var s3 := Lower(s2);
    var s4 := CollapseUnderscores(s3);
    assert NameSteps[1..][1..][1..][1..][1..] == [];
    assert ApplySteps(NameSteps, name) == ApplySteps(NameSteps[1..], s1);
    assert ApplySteps(NameSteps[1..], s1) == ApplySteps(NameSteps[1..][1..], s2);
    assert ApplySteps(NameSteps[1..][1..], s2) == ApplySteps(NameSteps[1..][1..][1..], s3);
    assert ApplySteps(NameSteps[1..][1..][1..], s3) == ApplySteps(NameSteps[1..][1..][1..][1..], s4);
  }

  /** Lowercase letters, digits and single underscores, neither first nor last. */
  predicate IsSnakeBody(s: string) {
    && (forall i :: 0 <= i < |s| ==> IsLower(s[i]) || IsDigit(s[i]) || s[i] == '_')
    && NoDoubleUnderscore(s)
  }

  predicate IsSnakeName(s: string) {
    IsSnakeBody(s) && (s == [] || (s[0] != '_' && s[|s| - 1] != '_'))
  }

  /** On a string without doubled underscores, collapsing changes nothing. */
  lemma {:induction false} CollapseKeeps(s: string)
    requires NoDoubleUnderscore(s)
    ensures CollapseUnderscores(s) == s
    decreases |s|
  {
    if s != [] {
      assert NoDoubleUnderscore(s[1..]);
      if s[0] == '_' {
        assert TrimStart(s[1..], IsUnderscore) == s[1..];
      }
      CollapseKeeps(s[1..]);
    }
  }

  /** On alphanumerics and single underscores the run replacement changes nothing. */
  lemma {:induction false} ReplaceKeeps(s: string)
    requires AlnumOrUnderscore(s)
    requires NoDoubleUnderscore(s)
    ensures ReplaceNonAlnumRuns(s) == s
    decreases |s|
  {
    if s != [] {
      assert NoDoubleUnderscore(s[1..]);
      if !IsAlnum(s[0]) {
        assert TrimStart(s[1..], NotAlnum) == s[1..];
      }
      ReplaceKeeps(s[1..]);
    }
  }

  /** Lowercasing alphanumerics and single underscores yields a snake-case body. */
  lemma LowerIsSnakeBody(s: string)
    requires AlnumOrUnderscore(s)
    requires NoDoubleUnderscore(s)
    ensures IsSnakeBody(Lower(s))
  {
    var t := Lower(s);
    forall i | 0 <= i < |t| - 1
      ensures !(t[i] == '_' && t[i + 1] == '_')
    {
      assert t[i] == '_' ==> s[i] == '_';
      assert t[i + 1] == '_' ==> s[i + 1] == '_';
    }
  }

  /** A slice of a snake-case body is one. */
  lemma SnakeBodySlice(s: string, lo: nat, hi: nat)
    requires IsSnakeBody(s) && lo <= hi <= |s|
    ensures IsSnakeBody(s[lo..hi])
  {
    var r := s[lo..hi];
    assert forall i :: 0 <= i < |r| ==> r[i] == s[lo + i];
  }

  /** Stripping underscores from a snake-case body gives a snake-case name. */
  lemma StripIsSnakeName(s: string)
    requires IsSnakeBody(s)
    ensures IsSnakeName(Strip(s, IsUnderscore))
  {
    var front := TrimStart(s, IsUnderscore);
    SnakeBodySlice(s, |s| - |front|, |s|);
    var r := TrimEnd(front, IsUnderscore);
    SnakeBodySlice(front, 0, |r|);
  }

  /** Every normalised label is a snake-case name. */
  lemma NormalizeNameIsSnake(name: string)
    ensures IsSnakeName(NormalizeName(name))
  {
    NormalizeNameUnfold(name);
    var replaced := ReplaceNonAlnumRuns(Strip(name, IsSpace));
    ReplaceShape(Strip(name, IsSpace));
    LowerIsSnakeBody(replaced);
    CollapseKeeps(Lower(replaced));
    StripIsSnakeName(Lower(replaced));
  }

  /** A snake-case name is already lower case. */
  lemma SnakeIsLower(name: string)
    requires IsSnakeBody(name)
    ensures Lower(name) == name
  {
    assert forall i :: 0 <= i < |name| ==> Lower(name)[i] == name[i];
  }

  /** Normalisation is the identity on snake-case names. */
  lemma NormalizeNameKeepsSnake(name: string)
    requires IsSnakeName(name)
    ensures NormalizeName(name) == name
  {
    StripKeeps(name, IsSpace);
    assert AlnumOrUnderscore(name);
    ReplaceKeeps(name);
    SnakeIsLower(name);
    CollapseKeeps(name);
    StripKeeps(name, IsUnderscore);
    NormalizeNameVia(name, name, name, name, name, name);
  }

  /** Normalising twice is normalising once. */
  lemma NormalizeNameIdempotent(name: string)
    ensures NormalizeName(NormalizeName(name)) == NormalizeName(name)
  {
    NormalizeNameIsSnake(name);
    NormalizeNameKeepsSnake(NormalizeName(name));
  }

  /** `normalizar_nombres_columnas`: one normalised label per input label,
      built by appending in order. */
  method NormalizeColumnNames(names: seq<string>) returns (normalized: seq<string>)
    ensures |normalized| == |names|
    ensures forall i :: 0 <= i < |names| ==> normalized[i] == NormalizeName(names[i])
    ensures forall i :: 0 <= i < |names| ==> IsSnakeName(normalized[i])
    ensures (forall i :: 0 <= i < |names| ==> IsSnakeName(names[i])) ==> normalized == names
  {
    normalized := [];
    for k := 0 to |names|
      invariant |normalized| == k
      invariant forall i :: 0 <= i < k ==> normalized[i] == NormalizeName(names[i])
    {
      var name := NormalizeName(names[k]);
      normalized := normalized + [name];
    }
    NormalizedListFacts(names, normalized);
  }

  /** Position-wise normalisation yields snake-case names only, and changes
      nothing in a list that is already normalised. */
  lemma NormalizedListFacts(names: seq<string>, normalized: seq<string>)
    requires |normalized| == |names|
    requires forall i :: 0 <= i < |names| ==> normalized[i] == NormalizeName(names[i])
    ensures forall i :: 0 <= i < |names| ==> IsSnakeName(normalized[i])
    ensures (forall i :: 0 <= i < |names| ==> IsSnakeName(names[i])) ==> normalized == names
  {
    NormalizedAreSnake(names, normalized);
    if forall i :: 0 <= i < |names| ==> IsSnakeName(names[i]) {
      NormalizedKeepSnake(names, normalized);
    }
  }

  lemma NormalizedAreSnake(names: seq<string>, normalized: seq<string>)
    requires |normalized| == |names|
    requires forall i :: 0 <= i < |names| ==> normalized[i] == NormalizeName(names[i])
    ensures forall i :: 0 <= i < |names| ==> IsSnakeName(normalized[i])
  {
    forall i | 0 <= i < |names|
      ensures IsSnakeName(normalized[i])
    {
      NormalizeNameIsSnake(names[i]);
    }
  }

  lemma NormalizedKeepSnake(names: seq<string>, normalized: seq<string>)
    requires |normalized| == |names|
    requires forall i :: 0 <= i < |names| ==> normalized[i] == NormalizeName(names[i])
    requires forall i :: 0 <= i < |names| ==> IsSnakeName(names[i])
    ensures normalized == names
  {
    forall i | 0 <= i < |names|
      ensures normalized[i] == names[i]
    {
      NormalizeNameKeepsSnake(names[i]);
    }
  }

  /** Letters and digits only. */
  predicate AllAlnum(s: string) {
    forall i :: 0 <= i < |s| ==> IsAlnum(s[i])
  }

  /** The five steps of the pipeline, given as intermediate results. */
  lemma NormalizeNameVia(name: string, s1: string, s2: string, s3: string, s4: string, s5: string)
    requires s1 == Strip(name, IsSpace) && s2 == ReplaceNonAlnumRuns(s1) && s3 == Lower(s2)
    requires s4 == CollapseUnderscores(s3) && s5 == Strip(s4, IsUnderscore)
    ensures NormalizeName(name) == s5
  {
    NormalizeNameUnfold(name);
  }

  /** A non-empty alphanumeric label passes the steps before lowercasing unchanged. */
  lemma AlnumUntouchedBeforeLower(name: string)
    requires name != [] && AllAlnum(name)
    ensures Strip(name, IsSpace) == name
    ensures ReplaceNonAlnumRuns(name) == name
  {
    assert IsAlnum(name[0]) && IsAlnum(name[|name| - 1]);
    StripKeeps(name, IsSpace);
    assert forall i :: 0 <= i < |name| ==> name[i] != '_';
    assert AlnumOrUnderscore(name) && NoDoubleUnderscore(name);
    ReplaceKeeps(name);
  }

  /** A lowercased alphanumeric label passes the steps after lowercasing unchanged. */
  lemma AlnumUntouchedAfterLower(name: string)
    requires name != [] && AllAlnum(name)
    ensures CollapseUnderscores(Lower(name)) == Lower(name)
    ensures Strip(Lower(name), IsUnderscore) == Lower(name)
  {
    var low := Lower(name);
    assert forall i :: 0 <= i < |low| ==> low[i] != '_';
    CollapseKeeps(low);
    StripKeeps(low, IsUnderscore);
  }

  /** On a label of letters and digits, normalisation is lowercasing. */
  lemma NormalizeAlnumName(name: string)
    requires name != [] && AllAlnum(name)
    ensures NormalizeName(name) == Lower(name)
  {
    AlnumUntouchedBeforeLower(name);
    AlnumUntouchedAfterLower(name);
    NormalizeNameVia(name, name, name, Lower(name), Lower(name), Lower(name));
  }

  /** Run replacement copies a leading block of alphanumerics unchanged. */
  lemma {:induction false} ReplaceAlnumPrefix(a: string, rest: string)
    requires AllAlnum(a)
    ensures ReplaceNonAlnumRuns(a + rest) == a + ReplaceNonAlnumRuns(rest)
    decreases |a|
  {
    if a != [] {
      assert (a + rest)[1..] == a[1..] + rest;
      ReplaceAlnumPrefix(a[1..], rest);
      assert ReplaceNonAlnumRuns(a + rest) == [a[0]] + ReplaceNonAlnumRuns(a[1..] + rest);
      assert a == [a[0]] + a[1..];
    } else {
      assert a + rest == rest;
    }
  }

  /** The single space between two words becomes one underscore. */
  lemma ReplaceTwoWords(a: string, b: string)
    requires b != [] && AllAlnum(a) && AllAlnum(b)
    ensures ReplaceNonAlnumRuns(a + " " + b) == a + "_" + b
  {
    var sb := " " + b;
    assert a + " " + b == a + sb;
    ReplaceAlnumPrefix(a, sb);
    assert sb[1..] == b;
    assert TrimStart(b, NotAlnum) == b;
    assert ReplaceNonAlnumRuns(sb) == "_" + ReplaceNonAlnumRuns(b);
    ReplaceKeeps(b);
  }

  /** `word_word` in lower case survives the steps after lowercasing. */
  lemma TwoWordsUntouchedAfterLower(a: string, b: string)
    requires a != [] && b != [] && AllAlnum(a) && AllAlnum(b)
    ensures CollapseUnderscores(Lower(a + "_" + b)) == Lower(a + "_" + b)
    ensures Strip(Lower(a + "_" + b), IsUnderscore) == Lower(a + "_" + b)
  {
    var low := Lower(a + "_" + b);
    assert forall i :: 0 <= i < |low| && i != |a| ==> low[i] != '_';
    CollapseKeeps(low);
    assert low[0] == LowerChar(a[0]);
    assert low[|low| - 1] == LowerChar(b[|b| - 1]);
    StripKeeps(low, IsUnderscore);
  }

  /** Two alphanumeric words separated by a space become `word_word` in lower case. */
  lemma NormalizeTwoWords(a: string, b: string)
    requires a != [] && b != [] && AllAlnum(a) && AllAlnum(b)
    ensures NormalizeName(a + " " + b) == Lower(a) + "_" + Lower(b)
  {
    var name := a + " " + b;
    TwoWordsStripped(a, b);
    ReplaceTwoWords(a, b);
    TwoWordsUntouchedAfterLower(a, b);
    LowerTwoWords(a, b);
    var low := Lower(a + "_" + b);
    NormalizeNameVia(name, name, a + "_" + b, low, low, low);
  }

  lemma TwoWordsStripped(a: string, b: string)
    requires a != [] && b != [] && AllAlnum(a) && AllAlnum(b)
    ensures Strip(a + " " + b, IsSpace) == a + " " + b
  {
    var name := a + " " + b;
    assert name[0] == a[0];
    assert name[|name| - 1] == b[|b| - 1];
    StripKeeps(name, IsSpace);
  }

  lemma LowerTwoWords(a: string, b: string)
    ensures Lower(a + "_" + b) == Lower(a) + "_" + Lower(b)
  {
    assert Lower("_") == "_";
    LowerAppend(a, "_");
    LowerAppend(a + "_", b);
  }

  /** The first docstring example of data_cleaning.py:129-130. */
  lemma NormalizeDocstringExample()
    ensures NormalizeName("Loyalty Number") == "loyalty_number"
  {
    var first, second := "Loyalty", "Number";
    assert first + " " + second == "Loyalty Number";
    assert AllAlnum(first) && AllAlnum(second);
    NormalizeTwoWords(first, second);
    LowerExampleWords();
  }

  lemma LowerExampleWords()
    ensures Lower("Loyalty") + "_" + Lower("Number") == "loyalty_number"
  {
    var r := Lower("Loyalty") + "_" + Lower("Number");
    assert r[..7] == Lower("Loyalty") && r[8..] == Lower("Number");
    assert r[0] == 'l' && r[1] == 'o' && r[2] == 'y' && r[3] == 'a' && r[4] == 'l' && r[5] == 't' && r[6] == 'y';
    assert r[8] == 'n' && r[9] == 'u' && r[10] == 'm' && r[11] == 'b' && r[12] == 'e' && r[13] == 'r';
  }

  /** The second docstring example of data_cleaning.py:129-130. */
  lemma NormalizeAcronymExample()
    ensures NormalizeName("CLV") == "clv"
  {
    var name := "CLV";
    assert AllAlnum(name);
    NormalizeAlnumName(name);
    LowerAcronym();
  }

  lemma LowerAcronym()
    ensures Lower("CLV") == "clv"
  {
    var r := Lower("CLV");
    assert r[0] == 'c' && r[1] == 'l' && r[2] == 'v';
  }

  /** CamelCase is lowercased, not split into snake_case words. */
  lemma NormalizeKeepsCamelCaseJoined()
    ensures NormalizeName("LoyaltyNumber") == "loyaltynumber"
  {
    var name := "LoyaltyNumber";
    assert AllAlnum(name);
    NormalizeAlnumName(name);
    LowerCamelExample();
  }

  lemma LowerCamelExample()
    ensures Lower("LoyaltyNumber") == "loyaltynumber"
  {
    var r := Lower("LoyaltyNumber");
    assert r[0] == 'l' && r[1] == 'o' && r[2] == 'y' && r[3] == 'a' && r[4] == 'l' && r[5] == 't' && r[6] == 'y';
    assert r[7] == 'n' && r[8] == 'u' && r[9] == 'm' && r[10] == 'b' && r[11] == 'e' && r[12] == 'r';
  }
}
