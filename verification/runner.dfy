/**
  The template runner: one shell-command template bound to one CSV header
  row.  Construction trims and upper-cases the headers, indexes them by
  trimmed name, counts the template's variable references and re-validates
  the raw headers; `Validate` compares a later header row position by
  position; `Mapper` looks a field up in the current record; `Run` stores a
  record and hands the command and its environment to the platform shell.
 */
module CsvRunner {
  import opened Wrappers
  import opened Text
  import ShellVars
  import Tally

  /** The two header errors `validate` can return. */
  datatype HeaderError = HeaderCaseMismatch | HeaderValueMismatch

  /**
    What `validate` does with a header row: returns nil, returns one of the
    header errors, or indexes past the stored headers and panics.
   */
  datatype Validation = Valid | Invalid(err: HeaderError) | IndexPanic

  datatype TemplateRunner = TemplateRunner(
    headersToUpper: seq<string>,       // trimmed headers, upper-cased, for case-insensitive comparison
    headersTrimmed: seq<string>,       // headers with surrounding white space removed
    indexMap: map<string, nat>,        // trimmed header name to its column
    templateFields: map<string, nat>,  // variable name to its number of references in the template
    templateString: string,
    record: seq<string>)               // the row being rendered

  // ---------------------------------------------------------------------------
  // Header normalisation

  /** Each header with its surrounding white space removed. */
  function TrimAll(hs: seq<string>): (ts: seq<string>)
    ensures |ts| == |hs|
    ensures forall i :: 0 <= i < |hs| ==> ts[i] == TrimSpace(hs[i])
  {
    if |hs| == 0 then [] else [TrimSpace(hs[0])] + TrimAll(hs[1..])
  }

  /** Each header upper-cased. */
  function UpperAll(hs: seq<string>): (us: seq<string>)
    ensures |us| == |hs|
    ensures forall i :: 0 <= i < |hs| ==> us[i] == ToUpper(hs[i])
  {
    if |hs| == 0 then [] else [ToUpper(hs[0])] + UpperAll(hs[1..])
  }

  /** Column `i` is the last column named `h`. */
  predicate LastColumn(hs: seq<string>, h: string, i: int)
  {
    0 <= i < |hs| && hs[i] == h && forall j :: i < j < |hs| ==> hs[j] != h
  }

  /**
    Name-to-column index built by assigning `m[hs[i]] := i` for ascending
    `i`: exactly the names that occur, each mapped to its last column.
   */
  function IndexMap(hs: seq<string>): (m: map<string, nat>)
    ensures forall h :: h in m <==> h in hs
    ensures forall h :: h in m ==> LastColumn(hs, h, m[h])
  {
    if |hs| == 0 then map[]
    else
      var init, last := hs[..|hs| - 1], hs[|hs| - 1];
      assert hs == init + [last];
      var m := IndexMap(init);
      assert forall h :: h in m && h != last ==> LastColumn(hs, h, m[h]);
      m[last := |hs| - 1]
  }

  /** The stored upper-cased headers are the upper-cased trimmed headers, position by position. */
  predicate Aligned(tr: TemplateRunner)
  {
    && |tr.headersToUpper| == |tr.headersTrimmed|
    && forall i :: 0 <= i < |tr.headersTrimmed| ==> tr.headersToUpper[i] == ToUpper(tr.headersTrimmed[i])
  }

  /** The fields the template references, with their counts. */
  function FieldCounts(template: string): map<string, nat>
  {
    Tally.Count(ShellVars.Names(ShellVars.FindAll(template)))
  }

  /** Every runner that construction returns satisfies this; `Run` keeps it. */
  predicate Normalised(tr: TemplateRunner)
  {
    && Aligned(tr)
    && (forall i :: 0 <= i < |tr.headersTrimmed| ==> IsTrimmed(tr.headersTrimmed[i]))
    && tr.indexMap == IndexMap(tr.headersTrimmed)
    && tr.templateFields == FieldCounts(tr.templateString)
  }

  // ---------------------------------------------------------------------------
  // Validation

  /** Position `k` of `hs` trims to the stored header. */
  predicate Agrees(tr: TemplateRunner, hs: seq<string>, k: int)
  {
    0 <= k < |hs| && k < |tr.headersTrimmed| && TrimSpace(hs[k]) == tr.headersTrimmed[k]
  }

  /** `k` is the first position at or after `lo` whose trimmed header differs from the stored one. */
  predicate FirstMismatch(tr: TemplateRunner, hs: seq<string>, lo: int, k: int)
  {
    && 0 <= lo <= k < |hs| && k < |tr.headersTrimmed|
    && TrimSpace(hs[k]) != tr.headersTrimmed[k]
    && forall i :: lo <= i < k ==> Agrees(tr, hs, i)
  }

  /** The error reported for a mismatch at `k`: a value mismatch unless the two differ only in case. */
  predicate ReportsMismatch(tr: TemplateRunner, hs: seq<string>, k: int, e: HeaderError)
    requires 0 <= k < |hs| && k < |tr.headersTrimmed|
  {
    e == HeaderValueMismatch <==> !SameUpperCase(TrimSpace(hs[k]), tr.headersTrimmed[k])
  }

  /** The loop of `validate` from position `i` on. */
  function ValidateFrom(tr: TemplateRunner, hs: seq<string>, i: nat): (r: Validation)
    requires Aligned(tr)
    requires i <= |hs| && i <= |tr.headersTrimmed|
    ensures r == Valid <==> |hs| <= |tr.headersTrimmed| && forall j :: i <= j < |hs| ==> Agrees(tr, hs, j)
    ensures r == IndexPanic <==> |hs| > |tr.headersTrimmed| && forall j :: i <= j < |tr.headersTrimmed| ==> Agrees(tr, hs, j)
    ensures r.Invalid? ==> exists k :: FirstMismatch(tr, hs, i, k) && ReportsMismatch(tr, hs, k, r.err)
    decreases |hs| - i
  {
    if i == |hs| then Valid
    else if i >= |tr.headersToUpper| then IndexPanic
    else
      var ht := TrimSpace(hs[i]);
      var hu := ToUpper(ht);
      if hu != tr.headersToUpper[i] then
        assert !Agrees(tr, hs, i) && FirstMismatch(tr, hs, i, i);
        Invalid(HeaderValueMismatch)
      else if ht != tr.headersTrimmed[i] then
        assert !Agrees(tr, hs, i) && FirstMismatch(tr, hs, i, i);
        Invalid(HeaderCaseMismatch)
      else
        assert Agrees(tr, hs, i);
        ValidateFrom(tr, hs, i + 1)
  }

  /**
    Compares a header row with the stored headers position by position:
    nil when every position trims to the stored header, otherwise the error
    for the first position that does not, and a panic when every stored
    header agrees but the row is longer.
   */
  function Validate(tr: TemplateRunner, hs: seq<string>): (r: Validation)
    requires Aligned(tr)
    ensures r == Valid <==> |hs| <= |tr.headersTrimmed| && forall j :: 0 <= j < |hs| ==> Agrees(tr, hs, j)
    ensures r == IndexPanic <==> |hs| > |tr.headersTrimmed| && forall j :: 0 <= j < |tr.headersTrimmed| ==> Agrees(tr, hs, j)
    ensures r.Invalid? ==> exists k :: FirstMismatch(tr, hs, 0, k) && ReportsMismatch(tr, hs, k, r.err)
  {
    ValidateFrom(tr, hs, 0)
  }

  /** There is at most one first mismatch. */
  lemma FirstMismatchUnique(tr: TemplateRunner, hs: seq<string>, k: int, k': int)
    requires FirstMismatch(tr, hs, 0, k) && FirstMismatch(tr, hs, 0, k')
    ensures k == k'
  {
    assert !Agrees(tr, hs, k) && !Agrees(tr, hs, k');
  }

  /**
    The error is decided by the first mismatching position alone: it is
    reported even when a later position also mismatches, and any other row
    that agrees up to that position gets the same error.
   */
  lemma ValidateStopsAtFirstMismatch(tr: TemplateRunner, hs: seq<string>, hs': seq<string>, k: nat)
    requires Aligned(tr)
    requires FirstMismatch(tr, hs, 0, k)
    requires k < |hs'| && forall i :: 0 <= i <= k ==> hs'[i] == hs[i]
    ensures Validate(tr, hs).Invalid?
    ensures Validate(tr, hs) == Validate(tr, hs')
    ensures ReportsMismatch(tr, hs, k, Validate(tr, hs).err)
  {
    assert FirstMismatch(tr, hs', 0, k) by {
      forall i | 0 <= i < k ensures Agrees(tr, hs', i) {
        assert Agrees(tr, hs, i);
      }
    }
    ReportsAtFirstMismatch(tr, hs, k);
    ReportsAtFirstMismatch(tr, hs', k);
    var r, r' := Validate(tr, hs), Validate(tr, hs');
    assert hs'[k] == hs[k];
    assert r.err == r'.err;
  }

  /** A row with a first mismatch at `k` is rejected with the error that position calls for. */
  lemma ReportsAtFirstMismatch(tr: TemplateRunner, hs: seq<string>, k: nat)
    requires Aligned(tr)
    requires FirstMismatch(tr, hs, 0, k)
    ensures Validate(tr, hs).Invalid?
    ensures ReportsMismatch(tr, hs, k, Validate(tr, hs).err)
  {
    var r := Validate(tr, hs);
    assert !Agrees(tr, hs, k);
    var j :| FirstMismatch(tr, hs, 0, j) && ReportsMismatch(tr, hs, j, r.err);
    FirstMismatchUnique(tr, hs, j, k);
  }

  /** A normalised runner accepts its own trimmed headers: trimming them again changes nothing. */
  lemma ValidatesOwnHeaders(tr: TemplateRunner)
    requires Normalised(tr)
    ensures Validate(tr, tr.headersTrimmed) == Valid
  {
    forall i | 0 <= i < |tr.headersTrimmed|
      ensures Agrees(tr, tr.headersTrimmed, i)
    {
      TrimmedIsFixed(tr.headersTrimmed[i]);
    }
  }

  // ---------------------------------------------------------------------------
  // Construction

  /**
    `init`: trims and upper-cases the headers held in `headersTrimmed`,
    indexes them, validates the untrimmed copy and counts the template's
    references.  It is applied once, to a freshly made runner whose maps
    are empty.
   */
  function Init(tr: TemplateRunner): (res: (TemplateRunner, Validation))
    requires |tr.headersToUpper| == |tr.headersTrimmed|
    requires tr.indexMap == map[] && tr.templateFields == map[]
    ensures res.1 == Valid
    ensures Normalised(res.0)
    ensures |res.0.headersTrimmed| == |tr.headersTrimmed|
    ensures forall i :: 0 <= i < |tr.headersTrimmed| ==> res.0.headersTrimmed[i] == TrimSpace(tr.headersTrimmed[i])
    ensures res.0.templateString == tr.templateString && res.0.record == tr.record
  {
    var headers := tr.headersTrimmed;
    var trimmed := TrimAll(headers);
    var normalised := tr.(headersTrimmed := trimmed, headersToUpper := UpperAll(trimmed), indexMap := IndexMap(trimmed));
    var err := Validate(normalised, headers);
    (normalised.(templateFields := FieldCounts(tr.templateString)), err)
  }

  /**
    `NewTemplateRunner`: copies the headers, takes the optional first record,
    and initialises.  The returned error is always nil.
   */
  function NewTemplateRunner(templateString: string, headers: seq<string>, records: seq<seq<string>>): (res: (TemplateRunner, Validation))
    ensures res.1 == Valid
    ensures Normalised(res.0)
    ensures |res.0.headersTrimmed| == |headers|
    ensures forall i :: 0 <= i < |headers| ==> res.0.headersTrimmed[i] == TrimSpace(headers[i])
    ensures res.0.templateString == templateString
    ensures res.0.record == (if |records| > 0 then records[0] else [])
  {
    var blank := seq(|headers|, _ => "");
    var record := if |records| > 0 then records[0] else [];
    Init(TemplateRunner(blank, headers, map[], map[], templateString, record))
  }

  /** Headers that are already trimmed are stored exactly as given. */
  lemma TrimmedHeadersKept(templateString: string, headers: seq<string>, records: seq<seq<string>>)
    requires forall i :: 0 <= i < |headers| ==> IsTrimmed(headers[i])
    ensures NewTemplateRunner(templateString, headers, records).0.headersTrimmed == headers
  {
    var tr := NewTemplateRunner(templateString, headers, records).0;
    forall i | 0 <= i < |headers|
      ensures tr.headersTrimmed[i] == headers[i]
    {
      TrimmedIsFixed(headers[i]);
    }
  }

  /**
    What the index and the field counts of a normalised runner hold: the
    index maps each trimmed header to its last column and nothing else; the
    field counts hold each referenced name with its number of references,
    and the counts add up to the number of references.
   */
  lemma NormalisedContents(tr: TemplateRunner)
    requires Normalised(tr)
    ensures forall h :: h in tr.indexMap <==> h in tr.headersTrimmed
    ensures forall h :: h in tr.indexMap ==> LastColumn(tr.headersTrimmed, h, tr.indexMap[h])
    ensures var names := ShellVars.Names(ShellVars.FindAll(tr.templateString));
            && (forall n :: n in tr.templateFields <==> n in names)
            && (forall n :: n in tr.templateFields ==> tr.templateFields[n] == multiset(names)[n])
            && Tally.Total(tr.templateFields) == |ShellVars.FindAll(tr.templateString)|
  {
    Tally.CountTotal(ShellVars.Names(ShellVars.FindAll(tr.templateString)));
  }

  // ---------------------------------------------------------------------------
  // Field lookup

  /** `mapper`: the record value of the column named exactly `field`, or "" when there is none. */
  function Mapper(tr: TemplateRunner, field: string): (r: string)
    ensures r == "" || r in tr.record
    ensures field !in tr.indexMap ==> r == ""
  {
    if field in tr.indexMap && tr.indexMap[field] < |tr.record| then tr.record[tr.indexMap[field]] else ""
  }

  /** A name has at most one last column. */
  lemma LastColumnUnique(hs: seq<string>, h: string, i: int, j: int)
    requires LastColumn(hs, h, i) && LastColumn(hs, h, j)
    ensures i == j
  {
    assert hs[i] == h && hs[j] == h;
  }

  /**
    In a normalised runner a field resolves, case-sensitively, to the value
    in its last column when the record reaches that far, and to "" when the
    record is shorter or no header has that exact name.
   */
  lemma MapperFindsLastColumn(tr: TemplateRunner, field: string, i: int)
    requires Normalised(tr)
    ensures LastColumn(tr.headersTrimmed, field, i) ==> Mapper(tr, field) == (if i < |tr.record| then tr.record[i] else "")
    ensures field !in tr.headersTrimmed ==> Mapper(tr, field) == ""
  {
    if LastColumn(tr.headersTrimmed, field, i) {
      assert field in tr.headersTrimmed;
      LastColumnUnique(tr.headersTrimmed, field, i, tr.indexMap[field]);
    }
  }

  // ---------------------------------------------------------------------------
  // Running a record

  /** Failures of the shell process, reported as the error of `Run`. */
  datatype ProcessError = ProcessLaunchError | ProcessExecutionError

  /** A process to start: the program, its arguments and its complete environment. */
  datatype Command = Command(path: string, args: seq<string>, env: seq<string>)

  /** What the process reports: its combined standard output and error, and its failure if any. */
  datatype ExecResult = ExecResult(output: string, err: Option<ProcessError>)

  /** What `Run` returns, with the runner after it stored the record. */
  datatype RunResult = RunResult(runner: TemplateRunner, combined: string, err: Option<ProcessError>)

  /** The child environment: one `name=value` entry per header, in header order. */
  function Environ(headers: seq<string>, record: seq<string>): (env: seq<string>)
    requires |record| >= |headers|
    ensures |env| == |headers|
    ensures forall i :: 0 <= i < |headers| ==> env[i] == headers[i] + "=" + record[i]
  {
    if |headers| == 0 then []
    else Environ(headers[..|headers| - 1], record) + [headers[|headers| - 1] + "=" + record[|headers| - 1]]
  }

  /**
    The command `Run` starts for `record` on platform `goos`: PowerShell with
    the template rewritten to `$Env:` references on Windows, the Bourne shell
    with the template as written everywhere else; the environment holds the
    header variables and nothing inherited.
   */
  function Plan(tr: TemplateRunner, record: seq<string>, goos: string): (cmd: Command)
    requires |record| >= |tr.headersTrimmed|
    ensures goos == "windows" ==> cmd.path == "powershell" && cmd.args == ["-c", ShellVars.ToPowerShell(tr.templateString)]
    ensures goos != "windows" ==> cmd.path == "sh" && cmd.args == ["-c", tr.templateString]
    ensures |cmd.env| == |tr.headersTrimmed|
    ensures forall i :: 0 <= i < |tr.headersTrimmed| ==> cmd.env[i] == tr.headersTrimmed[i] + "=" + record[i]
  {
    var env := Environ(tr.headersTrimmed, record);
    if goos == "windows" then Command("powershell", ["-c", ShellVars.ToPowerShell(tr.templateString)], env)
    else Command("sh", ["-c", tr.templateString], env)
  }

  /**
    `Run`: stores the record, starts the planned command through `exec`
    (asked to capture combined output exactly when `output` is set) and
    returns the captured text, or "" when output was not requested, with the
    process error.
   */
  function Run(tr: TemplateRunner, record: seq<string>, output: bool, goos: string,
               exec: (Command, bool) -> ExecResult): (res: RunResult)
    requires |record| >= |tr.headersTrimmed|
    ensures res.runner == tr.(record := record)
    ensures !output ==> res.combined == ""
    ensures output ==> res.combined == exec(Plan(tr, record, goos), true).output
    ensures res.err == exec(Plan(tr, record, goos), output).err
  {
    var stored := tr.(record := record);
    var cmd := Plan(stored, record, goos);
    if output then
      var r := exec(cmd, true);
      RunResult(stored, r.output, r.err)
    else
      RunResult(stored, "", exec(cmd, false).err)
  }

  /**
    `Run` changes nothing but the stored record: a second run of the same
    record on the runner the first run returned plans the same command from
    an unchanged runner (so, `exec` being a function of that command, gives
    the same result), and a constructed runner stays constructed.
   */
  lemma RunRepeatable(tr: TemplateRunner, record: seq<string>, output: bool, goos: string,
                      exec: (Command, bool) -> ExecResult)
    requires |record| >= |tr.headersTrimmed|
    ensures var first := Run(tr, record, output, goos, exec);
            && Plan(first.runner, record, goos) == Plan(tr, record, goos)
            && Run(first.runner, record, output, goos, exec) == first
            && (Normalised(tr) ==> Normalised(first.runner))
  {
  }

  // ---------------------------------------------------------------------------
  // Lookup in the planned environment list

  /** Index of the first `=` in an entry, or its length when there is none. */
  function EqualsIndex(e: string): (n: nat)
    ensures n <= |e|
    ensures forall i :: 0 <= i < n ==> e[i] != '='
    ensures n < |e| ==> e[n] == '='
  {
    if |e| == 0 || e[0] == '=' then 0 else 1 + EqualsIndex(e[1..])
  }

  /** The variable name of an entry: the text before its first `=`. */
  function KeyOf(e: string): string
  {
    e[..EqualsIndex(e)]
  }

  /** The value of an entry: the text after its first `=`. */
  function ValueOf(e: string): string
  {
    var n := EqualsIndex(e);
    if n < |e| then e[n + 1..] else ""
  }

  /** An entry `h=v` splits back into `h` and `v` when the name has no `=`. */
  lemma EntrySplits(h: string, v: string)
    requires '=' !in h
    ensures KeyOf(h + "=" + v) == h && ValueOf(h + "=" + v) == v
  {
    var e := h + "=" + v;
    assert forall i :: 0 <= i < |h| ==> e[i] == h[i];
    assert e[|h|] == '=';
    assert e[|h| + 1..] == v;
  }

  /** The value an environment list gives `name`: the last entry with that name wins. */
  function EnvLookup(env: seq<string>, name: string): (r: Option<string>)
    ensures r.Some? <==> exists i :: 0 <= i < |env| && KeyOf(env[i]) == name
  {
    if |env| == 0 then None
    else if KeyOf(env[|env| - 1]) == name then Some(ValueOf(env[|env| - 1]))
    else
      var r := EnvLookup(env[..|env| - 1], name);
      assert forall i :: 0 <= i < |env| - 1 ==> env[..|env| - 1][i] == env[i];
      r
  }

  /** Looking a name up in the built environment is looking it up in the header index. */
  lemma {:induction false} EnvironLookup(hs: seq<string>, record: seq<string>, name: string)
    requires |record| >= |hs|
    requires forall i :: 0 <= i < |hs| ==> '=' !in hs[i]
    ensures EnvLookup(Environ(hs, record), name)
            == if name in IndexMap(hs) then Some(record[IndexMap(hs)[name]]) else None
  {
    if |hs| > 0 {
      var n := |hs| - 1;
      var init := hs[..n];
      var env := Environ(hs, record);
      assert env[..n] == Environ(init, record);
      EntrySplits(hs[n], record[n]);
      EnvironLookup(init, record, name);
    }
  }

  /**
    With header names free of `=`, looking a name up in the planned
    environment list gives what `mapper` yields for the same record: a
    header's entry holds the value of its last column, and a name that is
    not a header has no entry.
   */
  lemma EnvAgreesWithMapper(tr: TemplateRunner, record: seq<string>, goos: string, name: string)
    requires Normalised(tr)
    requires |record| >= |tr.headersTrimmed|
    requires forall i :: 0 <= i < |tr.headersTrimmed| ==> '=' !in tr.headersTrimmed[i]
    ensures EnvLookup(Plan(tr, record, goos).env, name)
            == if name in tr.indexMap then Some(Mapper(tr.(record := record), name)) else None
  {
    EnvironLookup(tr.headersTrimmed, record, name);
  }
}
