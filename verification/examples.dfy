/**
  The concrete cases of the runner's test file, and the two pattern quirks,
  stated as lemmas about the model.

  Facts about a literal string are derived in small lemmas that see the
  literal, and composed in lemmas that see only those facts: a literal next
  to a recursive function of it makes the verifier unfold the function
  along the whole literal.
 */
module RunnerExamples {
  import opened Wrappers
  import opened Text
  import opened ShellVars
  import opened CsvRunner

  /** The test template, `echo "${name} is $age years old"`, spelled out around its two references. */
  const NameAgeTemplate: string := "echo \"" + "${" + "name" + "}" + " is " + "$" + "age" + " years old\""
  /** The header row of the tests. */
  const Headers: seq<string> := ["name", "age", "pronouns"]
  /** The record of the tests. */
  const Randolf: seq<string> := ["Randolf", "42", "they/them"]

  // ---------------------------------------------------------------------------
  // The PowerShell rewrite of a template shaped like the test template

  /** Where the pieces of `a${n1}b$n2c` sit. */
  lemma Layout(a: string, n1: string, b: string, n2: string, c: string)
    ensures var t := a + "${" + n1 + "}" + b + "$" + n2 + c;
            var e1 := |a| + 3 + |n1|;
            var e2 := e1 + |b| + 1 + |n2|;
            && |t| == e2 + |c|
            && t[0..|a|] == a
            && t[|a|] == '$' && t[|a| + 1] == '{' && t[|a| + 2 + |n1|] == '}'
            && t[|a| + 2..|a| + 2 + |n1|] == n1
            && t[e1..e1 + |b|] == b
            && t[e1 + |b|] == '$'
            && t[e1 + |b| + 1..e2] == n2
            && t[e2..] == c
  {
  }

  /** Replacing the last part of a nested concatenation by an equal string. */
  lemma Substitute(r: string, a: string, x: string, y: string, y': string)
    requires r == a + (x + y) && y == y'
    ensures r == a + (x + y')
  {
  }

  /** Re-associating a five-part concatenation. */
  lemma Regroup(a: string, x: string, b: string, y: string, c: string)
    ensures a + (x + (b + (y + c))) == a + x + b + y + c
  {
  }

  /** From `e1` on: text `b`, an unbraced reference `$n2`, and a tail `c` without `$`. */
  lemma RewriteTail(t: string, e1: nat, b: string, n2: string, c: string)
    requires NoDollar(b) && NoDollar(c) && IsWord(n2)
    requires |c| == 0 || (!IsWordChar(c[0]) && c[0] != '}')
    requires e1 + |b| + 1 + |n2| + |c| == |t|
    requires t[e1..e1 + |b|] == b
    requires t[e1 + |b|] == '$'
    requires t[e1 + |b| + 1..e1 + |b| + 1 + |n2|] == n2
    requires t[e1 + |b| + 1 + |n2|..] == c
    ensures ReplaceAllFrom(t, e1) == b + ("$Env:" + n2 + c)
  {
    var e2 := e1 + |b| + 1 + |n2|;
    assert e2 < |t| ==> t[e2] == c[0];
    CopyThenUnbraced(t, e1, b, n2);
    CopyToEnd(t, e2);
    Substitute(ReplaceAllFrom(t, e1), b, "$Env:" + n2, ReplaceAllFrom(t, e2), c);
  }

  /** From `i` on: text `a`, a braced reference `${n1}`, then the tail of `RewriteTail`. */
  lemma RewriteFrom(t: string, i: nat, e1: nat, a: string, n1: string, b: string, n2: string, c: string)
    requires NoDollar(a) && NoDollar(b) && NoDollar(c) && IsWord(n1) && IsWord(n2)
    requires |c| == 0 || (!IsWordChar(c[0]) && c[0] != '}')
    requires e1 == i + |a| + 3 + |n1| && e1 + |b| + 1 + |n2| + |c| == |t|
    requires t[i..i + |a|] == a
    requires t[i + |a|] == '$' && t[i + |a| + 1] == '{' && t[i + |a| + 2 + |n1|] == '}'
    requires t[i + |a| + 2..i + |a| + 2 + |n1|] == n1
    requires t[e1..e1 + |b|] == b
    requires t[e1 + |b|] == '$'
    requires t[e1 + |b| + 1..e1 + |b| + 1 + |n2|] == n2
    requires t[e1 + |b| + 1 + |n2|..] == c
    ensures ReplaceAllFrom(t, i) == a + ("$Env:" + n1 + (b + ("$Env:" + n2 + c)))
  {
    RewriteTail(t, e1, b, n2, c);
    CopyThenBraced(t, i, a, n1);
    Substitute(ReplaceAllFrom(t, i), a, "$Env:" + n1, ReplaceAllFrom(t, e1), b + ("$Env:" + n2 + c));
  }

  /**
    `RewriteFrom` at the start of the text.  The start is a parameter equal
    to zero rather than the literal, which keeps the verifier from unrolling
    the rewrite at constant positions.
   */
  lemma RewriteFromStart(t: string, z: nat, a: string, n1: string, b: string, n2: string, c: string)
    requires z == 0
    requires NoDollar(a) && NoDollar(b) && NoDollar(c) && IsWord(n1) && IsWord(n2)
    requires |c| == 0 || (!IsWordChar(c[0]) && c[0] != '}')
    requires var e1 := |a| + 3 + |n1|;
            var e2 := e1 + |b| + 1 + |n2|;
            && |t| == e2 + |c|
            && t[0..|a|] == a
            && t[|a|] == '$' && t[|a| + 1] == '{' && t[|a| + 2 + |n1|] == '}'
            && t[|a| + 2..|a| + 2 + |n1|] == n1
            && t[e1..e1 + |b|] == b
            && t[e1 + |b|] == '$'
            && t[e1 + |b| + 1..e2] == n2
            && t[e2..] == c
    ensures ReplaceAllFrom(t, z) == a + ("$Env:" + n1 + (b + ("$Env:" + n2 + c)))
  {
    RewriteFrom(t, z, |a| + 3 + |n1|, a, n1, b, n2, c);
  }

  /**
    A template made of text, a braced reference, text, an unbraced reference
    and a tail that starts with neither a word character nor `}` is rewritten
    by replacing just the two references.
   */
  lemma TwoReferences(a: string, n1: string, b: string, n2: string, c: string)
    requires NoDollar(a) && NoDollar(b) && NoDollar(c) && IsWord(n1) && IsWord(n2)
    requires |c| == 0 || (!IsWordChar(c[0]) && c[0] != '}')
    ensures ToPowerShell(a + "${" + n1 + "}" + b + "$" + n2 + c) == a + ("$Env:" + n1) + b + ("$Env:" + n2) + c
  {
    var t := a + "${" + n1 + "}" + b + "$" + n2 + c;
    Layout(a, n1, b, n2, c);
    RewriteFromStart(t, 0, a, n1, b, n2, c);
    Regroup(a, "$Env:" + n1, b, "$Env:" + n2, c);
  }

  /** From `e1` on, the search finds just the unbraced reference `$n2`. */
  lemma ScanTail(t: string, e1: nat, b: string, n2: string, c: string)
    requires NoDollar(b) && NoDollar(c) && IsWord(n2)
    requires |c| == 0 || (!IsWordChar(c[0]) && c[0] != '}')
    requires e1 + |b| + 1 + |n2| + |c| == |t|
    requires t[e1..e1 + |b|] == b
    requires t[e1 + |b|] == '$'
    requires t[e1 + |b| + 1..e1 + |b| + 1 + |n2|] == n2
    requires t[e1 + |b| + 1 + |n2|..] == c
    ensures FindAllFrom(t, e1) == [Match(e1 + |b|, e1 + |b| + 1 + |n2|, n2)]
  {
    var e2 := e1 + |b| + 1 + |n2|;
    assert e2 < |t| ==> t[e2] == c[0];
    SkipThenUnbraced(t, e1, b, n2);
    SkipToEnd(t, e2);
  }

  /** From `i` on, the search finds the braced reference `${n1}` and then the one of `ScanTail`. */
  lemma ScanFrom(t: string, i: nat, e1: nat, a: string, n1: string, b: string, n2: string, c: string)
    requires NoDollar(a) && NoDollar(b) && NoDollar(c) && IsWord(n1) && IsWord(n2)
    requires |c| == 0 || (!IsWordChar(c[0]) && c[0] != '}')
    requires e1 == i + |a| + 3 + |n1| && e1 + |b| + 1 + |n2| + |c| == |t|
    requires t[i..i + |a|] == a
    requires t[i + |a|] == '$' && t[i + |a| + 1] == '{' && t[i + |a| + 2 + |n1|] == '}'
    requires t[i + |a| + 2..i + |a| + 2 + |n1|] == n1
    requires t[e1..e1 + |b|] == b
    requires t[e1 + |b|] == '$'
    requires t[e1 + |b| + 1..e1 + |b| + 1 + |n2|] == n2
    requires t[e1 + |b| + 1 + |n2|..] == c
    ensures FindAllFrom(t, i) == [Match(i + |a|, e1, n1), Match(e1 + |b|, e1 + |b| + 1 + |n2|, n2)]
  {
    ScanTail(t, e1, b, n2, c);
    SkipThenBraced(t, i, a, n1);
    Chain(FindAllFrom(t, i), FindAllFrom(t, e1), Match(i + |a|, e1, n1), Match(e1 + |b|, e1 + |b| + 1 + |n2|, n2));
  }

  /** Two steps of the search, put together. */
  lemma Chain(whole: seq<Match>, rest: seq<Match>, m1: Match, m2: Match)
    requires whole == [m1] + rest && rest == [m2]
    ensures whole == [m1, m2]
  {
  }


  /** `ScanFrom` at the start of the text, which is a parameter equal to zero as in `RewriteFromStart`. */
  lemma ScanFromStart(t: string, z: nat, a: string, n1: string, b: string, n2: string, c: string)
    requires z == 0
    requires NoDollar(a) && NoDollar(b) && NoDollar(c) && IsWord(n1) && IsWord(n2)
    requires |c| == 0 || (!IsWordChar(c[0]) && c[0] != '}')
    requires var e1 := |a| + 3 + |n1|;
            var e2 := e1 + |b| + 1 + |n2|;
            && |t| == e2 + |c|
            && t[0..|a|] == a
            && t[|a|] == '$' && t[|a| + 1] == '{' && t[|a| + 2 + |n1|] == '}'
            && t[|a| + 2..|a| + 2 + |n1|] == n1
            && t[e1..e1 + |b|] == b
            && t[e1 + |b|] == '$'
            && t[e1 + |b| + 1..e2] == n2
            && t[e2..] == c
    ensures Names(FindAllFrom(t, z)) == [n1, n2]
  {
    var e1 := |a| + 3 + |n1|;
    ScanFrom(t, z, e1, a, n1, b, n2, c);
    var ms := FindAllFrom(t, z);
    assert ms[0].name == n1 && ms[1].name == n2;
  }

  /** The search over a template shaped like the test template finds its two references, in order. */
  lemma TwoReferencesFound(a: string, n1: string, b: string, n2: string, c: string)
    requires NoDollar(a) && NoDollar(b) && NoDollar(c) && IsWord(n1) && IsWord(n2)
    requires |c| == 0 || (!IsWordChar(c[0]) && c[0] != '}')
    ensures Names(FindAll(a + "${" + n1 + "}" + b + "$" + n2 + c)) == [n1, n2]
  {
    var t := a + "${" + n1 + "}" + b + "$" + n2 + c;
    Layout(a, n1, b, n2, c);
    ScanFromStart(t, 0, a, n1, b, n2, c);
  }

  /** The pieces of the test template meet the conditions of `TwoReferences`. */
  lemma TestTemplatePieces()
    ensures NoDollar("echo \"") && NoDollar(" is ") && NoDollar(" years old\"")
    ensures IsWord("name") && IsWord("age")
    ensures !IsWordChar(" years old\""[0]) && " years old\""[0] != '}'
  {
  }

  /** The rewritten pieces put back together. */
  lemma Assemble(before: string, name: string, between: string, age: string, after: string)
    requires before == "echo \"" && name == "name" && between == " is " && age == "age" && after == " years old\""
    ensures before + ("$Env:" + name) + between + ("$Env:" + age) + after == "echo \"$Env:name is $Env:age years old\""
  {
  }

  /** The PowerShell rewrite of the test template: both references become `$Env:` references. */
  lemma PowerShellRewriteExample()
    ensures ToPowerShell(NameAgeTemplate) == "echo \"$Env:name is $Env:age years old\""
  {
    TestTemplatePieces();
    TwoReferences("echo \"", "name", " is ", "age", " years old\"");
    Assemble("echo \"", "name", " is ", "age", " years old\"");
  }
  /** Two different names counted once each. */
  lemma CountTwoNames(ns: seq<string>, x: string, y: string)
    requires ns == [x, y] && x != y
    ensures Tally.Count(ns) == map[x := 1, y := 1]
  {
    var m := Tally.Count(ns);
    assert multiset(ns)[x] == 1 && multiset(ns)[y] == 1;
    assert m.Keys == {x, y};
  }

  /** The test template references `name` once and `age` once, and nothing else. */
  lemma FieldCountsExample()
    ensures FieldCounts(NameAgeTemplate) == map["name" := 1, "age" := 1]
  {
    TestTemplatePieces();
    TwoReferencesFound("echo \"", "name", " is ", "age", " years old\"");
    CountTwoNames(Names(FindAll(NameAgeTemplate)), "name", "age");
  }

  /** A runner built on the test template keeps those counts as its template fields. */
  lemma TemplateFieldsExample(headers: seq<string>, records: seq<seq<string>>)
    ensures NewTemplateRunner(NameAgeTemplate, headers, records).0.templateFields == map["name" := 1, "age" := 1]
  {
    FieldCountsExample();
  }


  // ---------------------------------------------------------------------------
  // The runner built from the test headers

  /** The runner the tests build: the plain headers come through construction unchanged. */
  lemma TestRunnerHeaders(template: string, records: seq<seq<string>>)
    ensures var tr := NewTemplateRunner(template, Headers, records).0;
            && Normalised(tr)
            && tr.headersTrimmed == Headers
            && tr.record == (if |records| > 0 then records[0] else [])
  {
    assert IsTrimmed("name") && IsTrimmed("age") && IsTrimmed("pronouns");
    TrimmedHeadersKept(template, Headers, records);
  }

  /** Where the test headers put the names the mapper test looks up. */
  lemma TestHeaderColumns(hs: seq<string>)
    requires hs == Headers
    ensures LastColumn(hs, "age", 1) && LastColumn(hs, "name", 0) && "Name" !in hs
  {
  }

  /** `mapper` on the test record: "age" gives "42" and "name" gives "Randolf"; lookups are case-sensitive. */
  lemma MapperOnTestRecord(tr: TemplateRunner)
    requires Normalised(tr)
    requires LastColumn(tr.headersTrimmed, "age", 1) && LastColumn(tr.headersTrimmed, "name", 0) && "Name" !in tr.headersTrimmed
    requires tr.record == Randolf
    ensures Mapper(tr, "age") == "42"
    ensures Mapper(tr, "name") == "Randolf"
    ensures Mapper(tr, "Name") == ""
  {
    MapperFindsLastColumn(tr, "age", 1);
    MapperFindsLastColumn(tr, "name", 0);
    MapperFindsLastColumn(tr, "Name", 0);
  }

  /** The mapper tests: a runner built with the test headers and record resolves "age" and "name", but not "Name". */
  lemma MapperExamples(template: string)
    ensures var tr := NewTemplateRunner(template, Headers, [Randolf]).0;
            && Mapper(tr, "age") == "42"
            && Mapper(tr, "name") == "Randolf"
            && Mapper(tr, "Name") == ""
  {
    var tr := NewTemplateRunner(template, Headers, [Randolf]).0;
    TestRunnerHeaders(template, [Randolf]);
    TestHeaderColumns(tr.headersTrimmed);
    MapperOnTestRecord(tr);
  }

  /** The runner accepts its own header row again. */
  lemma ValidationHeaderExample(template: string)
    ensures Validate(NewTemplateRunner(template, Headers, []).0, Headers) == Valid
  {
    TestRunnerHeaders(template, []);
    ValidatesOwnHeaders(NewTemplateRunner(template, Headers, []).0);
  }

  /** The first header differs from "name" only in case; the later ones do not matter. */
  lemma CaseMismatchFacts(tr: TemplateRunner, hs: seq<string>)
    requires tr.headersTrimmed == Headers && hs == ["Name", "Age", "Gender"]
    ensures FirstMismatch(tr, hs, 0, 0) && SameUpperCase(TrimSpace(hs[0]), tr.headersTrimmed[0])
  {
    TrimmedIsFixed("Name");
    assert ToUpper("Name") == ToUpper("name");
  }

  /** "gender" and "pronouns" differ in more than case. */
  lemma GenderIsNotPronouns(a: string, b: string)
    requires a == "gender" && b == "pronouns"
    ensures !SameUpperCase(a, b)
  {
    assert ToUpper(a)[0] == 'G' && ToUpper(b)[0] == 'P';
  }

  /** Positions 0 and 1 agree and position 2 does not: 2 is the first mismatch. */
  lemma MismatchAfterAgreement(tr: TemplateRunner, hs: seq<string>, k: nat)
    requires k == 2 && k < |hs| && k < |tr.headersTrimmed|
    requires Agrees(tr, hs, 0) && Agrees(tr, hs, 1)
    requires TrimSpace(hs[k]) != tr.headersTrimmed[k]
    ensures FirstMismatch(tr, hs, 0, k)
  {
    forall i | 0 <= i < k ensures Agrees(tr, hs, i) {
      assert i == 0 || i == 1;
    }
  }

  /** A row that agrees with trimmed stored headers up to position 2 and differs there in more than case. */
  lemma ThirdPositionMismatch(tr: TemplateRunner, hs: seq<string>)
    requires |hs| == 3 && |tr.headersTrimmed| == 3
    requires hs[0] == tr.headersTrimmed[0] && hs[1] == tr.headersTrimmed[1]
    requires IsTrimmed(hs[0]) && IsTrimmed(hs[1]) && IsTrimmed(hs[2])
    requires !SameUpperCase(hs[2], tr.headersTrimmed[2])
    ensures FirstMismatch(tr, hs, 0, 2) && !SameUpperCase(TrimSpace(hs[2]), tr.headersTrimmed[2])
  {
    TrimmedIsFixed(hs[0]);
    TrimmedIsFixed(hs[1]);
    TrimmedIsFixed(hs[2]);
    MismatchAfterAgreement(tr, hs, 2);
  }

  /** The third header is "gender", which is not "pronouns" in any case; the first two are the stored ones. */
  lemma ValueMismatchFacts(tr: TemplateRunner, hs: seq<string>)
    requires tr.headersTrimmed == Headers && hs == ["name", "age", "gender"]
    ensures |hs| == 3 && |tr.headersTrimmed| == 3
    ensures hs[0] == tr.headersTrimmed[0] && hs[1] == tr.headersTrimmed[1]
    ensures IsTrimmed(hs[0]) && IsTrimmed(hs[1]) && IsTrimmed(hs[2])
    ensures !SameUpperCase(hs[2], tr.headersTrimmed[2])
  {
    GenderIsNotPronouns(hs[2], tr.headersTrimmed[2]);
  }

  /**
    `["Name", "Age", "Gender"]` differs only in case at the first position,
    so that position's case mismatch is reported although "Gender" differs
    in value later.
   */
  lemma ValidationCaseMismatchExample(template: string)
    ensures Validate(NewTemplateRunner(template, Headers, []).0, ["Name", "Age", "Gender"]) == Invalid(HeaderCaseMismatch)
  {
    var tr := NewTemplateRunner(template, Headers, []).0;
    var hs := ["Name", "Age", "Gender"];
    TestRunnerHeaders(template, []);
    CaseMismatchFacts(tr, hs);
    ReportsAtFirstMismatch(tr, hs, 0);
  }

  /** `["name", "age", "gender"]` first differs at the third position, in value. */
  lemma ValidationValueMismatchExample(template: string)
    ensures Validate(NewTemplateRunner(template, Headers, []).0, ["name", "age", "gender"]) == Invalid(HeaderValueMismatch)
  {
    var tr := NewTemplateRunner(template, Headers, []).0;
    var hs := ["name", "age", "gender"];
    TestRunnerHeaders(template, []);
    ValueMismatchFacts(tr, hs);
    ThirdPositionMismatch(tr, hs);
    ReportsAtFirstMismatch(tr, hs, 2);
  }

  /** The environment for the test record: one `name=value` entry per test header. */
  lemma TestRecordEnvironment(tr: TemplateRunner, goos: string)
    requires tr.headersTrimmed == Headers
    ensures Plan(tr, Randolf, goos).env == ["name=Randolf", "age=42", "pronouns=they/them"]
  {
    var cmd := Plan(tr, Randolf, goos);
    assert cmd.env[0] == "name=Randolf" && cmd.env[1] == "age=42" && cmd.env[2] == "pronouns=they/them";
  }

  /** The command started for the test record: the Bourne shell with the template and one variable per header. */
  lemma PlanExample(template: string)
    ensures Plan(NewTemplateRunner(template, Headers, []).0, Randolf, "linux")
            == Command("sh", ["-c", template], ["name=Randolf", "age=42", "pronouns=they/them"])
  {
    TestRunnerHeaders(template, []);
    TestRecordEnvironment(NewTemplateRunner(template, Headers, []).0, "linux");
  }

  /** On Windows the same runner starts PowerShell with the rewritten template. */
  lemma WindowsPlanExample(tr: TemplateRunner)
    requires tr.headersTrimmed == Headers && tr.templateString == NameAgeTemplate
    ensures Plan(tr, Randolf, "windows").path == "powershell"
    ensures Plan(tr, Randolf, "windows").args == ["-c", "echo \"$Env:name is $Env:age years old\""]
  {
    PowerShellRewriteExample();
  }

  // ---------------------------------------------------------------------------
  // Pattern quirks

  /** `$abc}` swallows the closing brace although no opening brace was taken. */
  lemma UnopenedBraceConsumed(t: string)
    requires t == "$abc}"
    ensures MatchAt(t, 0) == Some(Match(0, 5, "abc"))
  {
    assert t[0] == '$' && t[1] == 'a' && t[2] == 'b' && t[3] == 'c' && t[4] == '}';
    UnopenedBraceTaken(t, 0, 3);
    assert t[1..4] == "abc";
  }

  /** `${abc` matches without a closing brace. */
  lemma UnclosedBraceMatches(t: string)
    requires t == "${abc"
    ensures MatchAt(t, 0) == Some(Match(0, 5, "abc"))
  {
    assert t[0] == '$' && t[1] == '{' && t[2] == 'a' && t[3] == 'b' && t[4] == 'c';
    UnclosedBraceReference(t, 0, 3);
    assert t[2..5] == "abc";
  }

  /** `${}` is no reference: a brace must be followed by a word character. */
  lemma EmptyBracesNoMatch(t: string)
    requires t == "${}"
    ensures MatchAt(t, 0) == None
  {
    assert t[1] == '{' && t[2] == '}';
  }
}
