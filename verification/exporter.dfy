/** The decisions around the filter step: which label the exported values sit
    under, which file they go to, how the dump command is built, when the
    user's answer lets the write go ahead, and the order in which the run
    can stop. (magento-config-exporter.py, lines 113-174.) */
module Exporter {
  import opened Wrappers
  import opened Text
  import opened ConfigFilter

  /** The configuration scopes the command line accepts. */
  datatype Scope = Default | Stores | Websites

  function ScopeName(scope: Scope): string {
    match scope
    case Default => "default"
    case Stores => "stores"
    case Websites => "websites"
  }

  function ScopeFromName(name: string): (r: Option<Scope>)
    ensures r.Some? ==> ScopeName(r.value) == name
    ensures forall s: Scope :: ScopeName(s) == name ==> r == Some(s)
  {
    if name == "default" then Some(Default)
    else if name == "stores" then Some(Stores)
    else if name == "websites" then Some(Websites)
    else None
  }

  /** A scope code counts only when it is given and non-empty (Python's
      truthiness of `args.scope_code`). */
  predicate HasCode(code: Option<string>) {
    code.Some? && code.value != ""
  }

  /** The top-level label of the export document. */
  function ScopeLabel(scope: Scope, code: Option<string>): string {
    if HasCode(code) then code.value else ScopeName(scope)
  }

  /** The name of the file the export is written to. */
  function FileName(scope: Scope, code: Option<string>): string {
    if HasCode(code) then ScopeName(scope) + "-" + code.value + ".yaml"
    else ScopeName(scope) + ".yaml"
  }

  /** The argument vector of the configuration dump. */
  function DumpCommand(bin: string, scope: Scope, code: Option<string>): seq<string> {
    var base := [bin, "config:show", "--scope=" + ScopeName(scope)];
    if HasCode(code) then base + ["--scope-code=" + code.value] else base
  }

  /** The export document: the filtered values under the one scope label. */
  function Document(top: string, values: map<string, string>): map<string, map<string, string>> {
    map[top := values]
  }

  /** Reads back the scope and the scope code from an output file name. */
  function ParseFileName(f: string): Option<(Scope, Option<string>)> {
    if |f| < 5 || f[|f| - 5..] != ".yaml" then None
    else
      var stem := f[..|f| - 5];
      match ScopeFromName(stem)
      case Some(s) => Some((s, None))
      case None =>
        match SplitOnce(stem, "-")
        case None => None
        case Some((name, code)) =>
          match ScopeFromName(name)
          case None => None
          case Some(s) => if code == "" then None else Some((s, Some(code)))
  }

  /** The scope code that actually takes effect. */
  function EffectiveCode(code: Option<string>): Option<string> {
    if HasCode(code) then code else None
  }

  lemma ScopeNameHasNoDash(scope: Scope)
    ensures forall i :: 0 <= i < |ScopeName(scope)| ==> ScopeName(scope)[i] != '-'
    ensures |ScopeName(scope)| > 0
  {
  }

  /** The file name determines the scope and the effective scope code: the
      scope names hold no '-', so the first '-' of the stem ends the scope. */
  lemma {:induction false} FileNameRoundTrip(scope: Scope, code: Option<string>)
    ensures ParseFileName(FileName(scope, code)) == Some((scope, EffectiveCode(code)))
  {
    var f := FileName(scope, code);
    var name := ScopeName(scope);
    assert f[|f| - 5..] == ".yaml";
    var stem := f[..|f| - 5];
    if HasCode(code) {
      var c := code.value;
      assert stem == name + "-" + c;
      assert ScopeFromName(stem).None? by {
        if ScopeFromName(stem).Some? {
          assert |ScopeName(ScopeFromName(stem).value)| == |stem| > |name|;
          assert stem[|name|] == '-';
          ScopeNameHasNoDash(ScopeFromName(stem).value);
        }
      }
      ScopeNameHasNoDash(scope);
      assert OccursAt(stem, "-", |name|);
      var (k, v) := SplitOnce(stem, "-").value;
      assert forall i :: 0 <= i < |name| ==> stem[i] != '-';
      assert stem[|k|..|k| + 1] == "-";
      assert stem[|k|] == '-';
      assert |k| == |name|;
      assert k == name;
      assert v == c;
    } else {
      assert stem == name;
    }
  }

  /** Two runs get the same file name only when they export the same scope
      with the same effective scope code. */
  lemma FileNameInjective(s1: Scope, c1: Option<string>, s2: Scope, c2: Option<string>)
    requires FileName(s1, c1) == FileName(s2, c2)
    ensures s1 == s2 && EffectiveCode(c1) == EffectiveCode(c2)
  {
    FileNameRoundTrip(s1, c1);
    FileNameRoundTrip(s2, c2);
  }

  /** Reads back the binary, the scope and the scope code from the dump
      command's argument vector. */
  function ParseDumpCommand(cmd: seq<string>): Option<(string, Scope, Option<string>)> {
    if |cmd| < 3 || |cmd| > 4 || cmd[1] != "config:show" || !StartsWith(cmd[2], "--scope=") then None
    else
      match ScopeFromName(cmd[2][|"--scope="|..])
      case None => None
      case Some(s) =>
        if |cmd| == 3 then Some((cmd[0], s, None))
        else if StartsWith(cmd[3], "--scope-code=") && |cmd[3]| > |"--scope-code="|
        then Some((cmd[0], s, Some(cmd[3][|"--scope-code="|..])))
        else None
  }

  /** The dump command determines the binary, the scope and the effective
      scope code it was built from. */
  lemma DumpCommandRoundTrip(bin: string, scope: Scope, code: Option<string>)
    ensures ParseDumpCommand(DumpCommand(bin, scope, code)) == Some((bin, scope, EffectiveCode(code)))
  {
    var cmd := DumpCommand(bin, scope, code);
    var name := ScopeName(scope);
    assert cmd[2] == "--scope=" + name;
    assert cmd[2][..|"--scope="|] == "--scope=";
    assert cmd[2][|"--scope="|..] == name;
    if HasCode(code) {
      var c := code.value;
      assert cmd[3] == "--scope-code=" + c;
      assert cmd[3][..|"--scope-code="|] == "--scope-code=";
      assert cmd[3][|"--scope-code="|..] == c;
    }
  }

  /** Conversely, an argument vector the reader accepts is exactly the dump
      command built from what it reads back. */
  lemma ParseDumpCommandInverse(cmd: seq<string>)
    requires ParseDumpCommand(cmd).Some?
    ensures var (bin, scope, code) := ParseDumpCommand(cmd).value;
            DumpCommand(bin, scope, code) == cmd
  {
    var (bin, scope, code) := ParseDumpCommand(cmd).value;
    assert cmd[2] == "--scope=" + ScopeName(scope) by {
      assert cmd[2] == cmd[2][..|"--scope="|] + cmd[2][|"--scope="|..];
    }
    if |cmd| == 4 {
      assert cmd[3] == "--scope-code=" + code.value by {
        assert cmd[3] == cmd[3][..|"--scope-code="|] + cmd[3][|"--scope-code="|..];
      }
    }
  }

  /** The document label is the scope code the file name carries, or the
      scope name when the file name carries none. */
  lemma ScopeLabelFromFileName(scope: Scope, code: Option<string>)
    ensures match ParseFileName(FileName(scope, code))
            case Some((s, Some(c))) => ScopeLabel(scope, code) == c
            case Some((s, None)) => ScopeLabel(scope, code) == ScopeName(s)
            case None => false
  {
    FileNameRoundTrip(scope, code);
  }

  /** The dump command, the document label and the file name agree: the
      command and the file name read back the same scope and the same scope
      code, and the label is that code, or the scope name when there is
      none. */
  lemma ScopeCodeUsedConsistently(bin: string, scope: Scope, code: Option<string>)
    ensures match (ParseDumpCommand(DumpCommand(bin, scope, code)), ParseFileName(FileName(scope, code)))
            case (Some((_, s1, c1)), Some((s2, c2))) =>
              && s1 == s2 && c1 == c2
              && ScopeLabel(scope, code) == (if c1.Some? then c1.value else ScopeName(s1))
            case _ => false
  {
    DumpCommandRoundTrip(bin, scope, code);
    FileNameRoundTrip(scope, code);
  }

  /** Whether the answer to the confirmation prompt lets the export proceed:
      the stripped, lower-cased answer must be "y" or "yes". */
  predicate Accepted(answer: string) {
    Lower(Strip(answer)) in {"y", "yes"}
  }

  /** "y" or "yes" in any mix of upper and lower case. */
  predicate IsYes(t: string) {
    || (|t| == 1 && t[0] in {'y', 'Y'})
    || (|t| == 3 && t[0] in {'y', 'Y'} && t[1] in {'e', 'E'} && t[2] in {'s', 'S'})
  }

  lemma LowerIsYes(t: string)
    ensures Lower(t) in {"y", "yes"} <==> IsYes(t)
  {
    var l := Lower(t);
    if |t| == 1 {
      assert l == "y" <==> l[0] == 'y';
    } else if |t| == 3 {
      assert l == "yes" <==> l[0] == 'y' && l[1] == 'e' && l[2] == 's';
    }
  }

  /** The answer is accepted exactly when, with surrounding whitespace
      removed, it reads "y" or "yes" ignoring case; an empty or blank answer
      aborts. */
  lemma AcceptedMeansYes(answer: string)
    ensures Accepted(answer) <==> IsYes(Strip(answer))
    ensures AllSpace(answer) ==> !Accepted(answer)
  {
    LowerIsYes(Strip(answer));
    if AllSpace(answer) {
      StripAllSpace(answer);
    }
  }

  /** The command-line choices that shape one export. */
  datatype Request = Request(scope: Scope, scopeCode: Option<string>, noInteraction: bool)

  /** The ways a run stops without writing. */
  datatype Abort = NoPaths | AbortedByUser

  /** What a successful run writes: the document and the file it goes to. */
  datatype Export = Export(fileName: string, document: map<string, map<string, string>>)

  /** One run of the exporter, from the requested prefixes to the file it
      writes. `dump` stands for the configuration dump: given the argument
      vector it yields the lines the command prints. */
  function Run(bin: string, req: Request, paths: seq<string>, dump: seq<string> -> seq<string>,
               answer: string): (r: Result<Export, Abort>)
    ensures paths == [] ==> r == Failure(NoPaths)
    ensures paths != [] && !req.noInteraction && !Accepted(answer) ==> r == Failure(AbortedByUser)
    ensures r.Success? <==> paths != [] && (req.noInteraction || Accepted(answer))
    ensures r.Success? ==> r.value.fileName == FileName(req.scope, req.scopeCode)
    ensures r.Success? ==> r.value.document.Keys == {ScopeLabel(req.scope, req.scopeCode)}
    ensures r.Success? ==> r.value.document[ScopeLabel(req.scope, req.scopeCode)]
                           == Collect(dump(DumpCommand(bin, req.scope, req.scopeCode)), paths)
  {
    if paths == [] then Failure(NoPaths)
    else
      var lines := dump(DumpCommand(bin, req.scope, req.scopeCode));
      var top := ScopeLabel(req.scope, req.scopeCode);
      var document := Document(top, Collect(lines, paths));
      var fileName := FileName(req.scope, req.scopeCode);
      if !req.noInteraction && !Accepted(answer) then Failure(AbortedByUser)
      else Success(Export(fileName, document))
  }

  /** The written document holds exactly the keys some dump line produces
      that start with a requested prefix. */
  lemma ExportHoldsExactlyMatchingKeys(bin: string, req: Request, paths: seq<string>,
                                       dump: seq<string> -> seq<string>, answer: string,
                                       lines: seq<string>, k: string)
    requires paths != [] && (req.noInteraction || Accepted(answer))
    requires lines == dump(DumpCommand(bin, req.scope, req.scopeCode))
    ensures Run(bin, req, paths, dump, answer).Success?
    ensures k in Run(bin, req, paths, dump, answer).value.document[ScopeLabel(req.scope, req.scopeCode)] <==>
            MatchesAny(paths, k) && exists i :: 0 <= i < |lines| && Produces(lines[i], k)
  {
    CollectKeys(lines, paths, k);
  }

  /** Each written value is the one on the last dump line carrying its key. */
  lemma ExportKeepsLastValue(bin: string, req: Request, paths: seq<string>,
                             dump: seq<string> -> seq<string>, answer: string,
                             lines: seq<string>, i: nat, k: string)
    requires paths != [] && (req.noInteraction || Accepted(answer))
    requires lines == dump(DumpCommand(bin, req.scope, req.scopeCode))
    requires i < |lines| && Produces(lines[i], k) && MatchesAny(paths, k)
    requires forall j :: i < j < |lines| ==> !Produces(lines[j], k)
    ensures Run(bin, req, paths, dump, answer).Success?
    ensures var doc := Run(bin, req, paths, dump, answer).value.document[ScopeLabel(req.scope, req.scopeCode)];
            k in doc && doc[k] == ParseLine(lines[i]).value.value
  {
    LastWriteWins(lines, paths, i, k);
  }

  /** With the prompt switched off the answer plays no part. */
  lemma NoInteractionIgnoresAnswer(bin: string, req: Request, paths: seq<string>,
                                   dump: seq<string> -> seq<string>, a1: string, a2: string)
    requires req.noInteraction
    ensures Run(bin, req, paths, dump, a1) == Run(bin, req, paths, dump, a2)
  {
  }

}
