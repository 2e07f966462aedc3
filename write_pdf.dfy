/**
 * The LaTeX render tool: write the source into the output directory under
 * a timestamp-derived name, pick the first available engine, run it,
 * report a failing run with the tails of its output, check that the PDF
 * exists, and remove the compiler's auxiliary files.
 *
 * The output directory is an object whose file map the steps change in
 * turn.  The clock, the engine probes and the child process are inputs:
 * the timestamp string, a Host record, and the CompileOutcome of the run.
 */
module LatexRender {
  import opened Wrappers
  import opened PyStr

  /** The Python exceptions the tool raises, with their messages. */
  datatype RenderError =
    | RuntimeError(message: string)
    | FileNotFoundError(message: string)

  /**
   * What the machine answers to the engine probes: shutil.which for a
   * command name, Path.exists for a path, and the home directory.
   */
  datatype Host = Host(which: string -> Option<string>, pathExists: string -> bool, home: string)

  /**
   * What the compiler run reports (exit code, captured stdout and stderr)
   * and the files it leaves in the output directory, by name.
   */
  datatype CompileOutcome = CompileOutcome(
    returnCode: int,
    stdout: string,
    stderr: string,
    written: map<string, string>)

  /** Path joining, `dir / name`, with '/' as the separator. */
  function PathJoin(dir: string, name: string): string {
    dir + "/" + name
  }

  // ---------------------------------------------------------------------
  // File names
  // ---------------------------------------------------------------------

  function TexName(timestamp: string): string {
    "paper_" + timestamp + ".tex"
  }

  function PdfName(timestamp: string): string {
    "paper_" + timestamp + ".pdf"
  }

  /**
   * pathlib's PurePath(name).stem for a name without '/': the name without
   * its last suffix, where a suffix starts at the last '.' provided that
   * dot is neither the first nor the last character.
   */
  function Stem(name: string): (stem: string)
    ensures |stem| <= |name| && name[..|stem|] == stem
    ensures stem != name ==> && 0 < |stem| < |name| - 1
                             && name[|stem|] == '.'
                             && forall j :: |stem| < j < |name| ==> name[j] != '.'
  {
    match LastIndexOf(name, '.')
    case Some(i) => if 0 < i < |name| - 1 then name[..i] else name
    case None => name
  }

  /**
   * Conversely, a last '.' that is neither the first nor the last
   * character is where the stem ends: "a.b" has stem "a".
   */
  lemma StemCutsAtLastDot(name: string, i: nat)
    requires 0 < i < |name| - 1 && name[i] == '.'
    requires forall j :: i < j < |name| ==> name[j] != '.'
    ensures Stem(name) == name[..i]
  {
    LastIndexOfIs(name, '.', i);
  }

  /**
   * The stem of the .tex name is "paper_<timestamp>", whatever the
   * timestamp holds, so the PDF the tool looks for is the .pdf name built
   * from the same timestamp: same stem, other extension.
   */
  lemma StemOfTexName(timestamp: string)
    ensures Stem(TexName(timestamp)) == "paper_" + timestamp
    ensures Stem(TexName(timestamp)) + ".pdf" == PdfName(timestamp)
  {
    var base := "paper_" + timestamp;
    var name := TexName(timestamp);
    assert name == base + ".tex";
    assert name[|base|] == '.';
    assert forall j :: |base| < j < |name| ==> name[j] != '.' by {
      forall j | |base| < j < |name| ensures name[j] != '.' {
        assert name[j] == "tex"[j - |base| - 1];
      }
    }
    LastIndexOfIs(name, '.', |base|);
    assert name[..|base|] == base;
  }

  // ---------------------------------------------------------------------
  // The engine
  // ---------------------------------------------------------------------

  const MiktexSystemPath := "C:/Program Files/MiKTeX/miktex/bin/x64/pdflatex.exe"
  const MiktexUserPath := "AppData/Local/Programs/MiKTeX/miktex/bin/x64/pdflatex.exe"

  /** The four operands of the `or` chain, in priority order. */
  function EngineCandidates(host: Host): (candidates: seq<Option<string>>)
    ensures |candidates| == 4
    ensures candidates[0] == host.which("pdflatex") && candidates[1] == host.which("xelatex")
    ensures candidates[2].Some? <==> host.pathExists(MiktexSystemPath)
    ensures candidates[2].Some? ==> candidates[2].value == MiktexSystemPath
    ensures candidates[3].Some? <==> host.pathExists(PathJoin(host.home, MiktexUserPath))
    ensures candidates[3].Some? ==> candidates[3].value == PathJoin(host.home, MiktexUserPath)
  {
    var user := PathJoin(host.home, MiktexUserPath);
    [ host.which("pdflatex"),
      host.which("xelatex"),
      if host.pathExists(MiktexSystemPath) then Some(MiktexSystemPath) else None,
      if host.pathExists(user) then Some(user) else None ]
  }

  /** Python truthiness of a str-or-None value. */
  predicate Truthy(o: Option<string>) {
    o.Some? && o.value != ""
  }

  /**
   * `a or b or ...` followed by `if not engine`: the first truthy operand,
   * or None when every operand is falsy.
   */
  function FirstTruthy(candidates: seq<Option<string>>): (r: Option<string>)
    ensures r.None? <==> forall k :: 0 <= k < |candidates| ==> !Truthy(candidates[k])
    ensures forall k :: 0 <= k < |candidates| && Truthy(candidates[k])
                        && (forall j :: 0 <= j < k ==> !Truthy(candidates[j]))
                        ==> r == candidates[k]
    ensures r.Some? ==> r.value != ""
    decreases |candidates|
  {
    if |candidates| == 0 then None
    else if Truthy(candidates[0]) then candidates[0]
    else FirstTruthy(candidates[1..])
  }

  /** The engine the tool runs: pdflatex, xelatex, the system MiKTeX, the user MiKTeX, first available. */
  function ResolveEngine(host: Host): Option<string> {
    FirstTruthy(EngineCandidates(host))
  }

  const NoEngineMessage := "No LaTeX engine found. Install MiKTeX/TeX Live or add pdflatex to PATH."

  /** The argv of the compiler run. */
  function CompileCommand(engine: string, outputDir: string, texPath: string): (argv: seq<string>)
    ensures |argv| == 8 && argv[0] == engine
    ensures forall k :: 1 <= k < 6 ==> argv[k] != "" && argv[k][0] == '-'
    ensures argv[1..5] == ["-interaction=nonstopmode", "-halt-on-error", "-synctex=0", "-quiet"]
    ensures argv[5] == "-output-directory" && argv[6] == outputDir
    ensures argv[|argv| - 1] == texPath
  {
    [engine, "-interaction=nonstopmode", "-halt-on-error", "-synctex=0", "-quiet",
     "-output-directory", outputDir, texPath]
  }

  // ---------------------------------------------------------------------
  // The failure message
  // ---------------------------------------------------------------------

  const TailLength := 2000
  const FailureHeader := "LaTeX compilation failed."
  const StderrLabel := "\nStderr (tail):\n"
  const StdoutLabel := "\nStdout (tail):\n"

  /**
   * The RuntimeError message of a failing run: the header, then the stderr
   * section, then the stdout section, each present only when that stream
   * is non-empty.
   */
  function FailureMessage(stdout: string, stderr: string): string {
    FailureHeader + ErrSection(stderr) + OutSection(stdout)
  }

  /** The stderr section of the message: empty when stderr is. */
  function ErrSection(stderr: string): string {
    if stderr != "" then StderrLabel + Tail(stderr, TailLength) else ""
  }

  /** The stdout section of the message: empty when stdout is. */
  function OutSection(stdout: string): string {
    if stdout != "" then StdoutLabel + Tail(stdout, TailLength) else ""
  }

  /**
   * The message is the header, then the last 2000 characters of stderr
   * (labelled), then those of stdout (labelled), each section present
   * exactly when its stream is non-empty.
   */
  lemma FailureMessageSections(stdout: string, stderr: string)
    ensures var msg := FailureMessage(stdout, stderr);
            && msg[..|FailureHeader|] == FailureHeader
            && msg[|FailureHeader|..|msg| - |OutSection(stdout)|] == ErrSection(stderr)
            && msg[|msg| - |OutSection(stdout)|..] == OutSection(stdout)
            && (ErrSection(stderr) == "" <==> stderr == "")
            && (OutSection(stdout) == "" <==> stdout == "")
  {
    assert FailureMessage(stdout, stderr) == FailureHeader + ErrSection(stderr) + OutSection(stdout);
    CutThree(FailureHeader, ErrSection(stderr), OutSection(stdout));
  }

  /** However much the compiler printed, the message stays short. */
  lemma FailureMessageBounded(stdout: string, stderr: string)
    ensures |FailureMessage(stdout, stderr)| <= |FailureHeader| + |StderrLabel| + TailLength + |StdoutLabel| + TailLength
    ensures stdout == "" && stderr == "" ==> FailureMessage(stdout, stderr) == FailureHeader
  {
    assert FailureMessage(stdout, stderr) == FailureHeader + ErrSection(stderr) + OutSection(stdout);
  }

  function PdfMissingMessage(pdfPath: string): string {
    "PDF file not found: " + pdfPath
  }

  // ---------------------------------------------------------------------
  // Cleanup
  // ---------------------------------------------------------------------

  const AuxSuffixes: seq<string> := [".aux", ".log", ".out", ".toc", ".synctex.gz", ".fls", ".fdb_latexmk"]

  /** The first n cleanup candidates of a stem. */
  function AuxPrefix(stem: string, n: nat): set<string>
    requires n <= |AuxSuffixes|
  {
    set k | 0 <= k < n :: stem + AuxSuffixes[k]
  }

  /** All seven cleanup candidates of a stem. */
  function AuxNames(stem: string): set<string> {
    AuxPrefix(stem, |AuxSuffixes|)
  }

  /** A candidate name gives back its suffix once the stem is cut off. */
  lemma AuxNameSuffix(stem: string, k: nat)
    requires k < |AuxSuffixes|
    ensures (stem + AuxSuffixes[k])[|stem|..] == AuxSuffixes[k]
  {
  }

  /** The seven suffixes are pairwise different. */
  lemma AuxSuffixesDistinct(i: nat, j: nat)
    requires i < j < |AuxSuffixes|
    ensures AuxSuffixes[i] != AuxSuffixes[j]
  {
  }

  /** The n-th candidate is not among the ones before it. */
  lemma AuxNameFresh(stem: string, n: nat)
    requires 0 < n <= |AuxSuffixes|
    ensures stem + AuxSuffixes[n - 1] !in AuxPrefix(stem, n - 1)
  {
    forall k | 0 <= k < n - 1
      ensures stem + AuxSuffixes[k] != stem + AuxSuffixes[n - 1]
    {
      AuxNameSuffix(stem, k);
      AuxNameSuffix(stem, n - 1);
      AuxSuffixesDistinct(k, n - 1);
    }
  }

  /** The first n candidates are n different names. */
  lemma {:induction false} AuxPrefixSize(stem: string, n: nat)
    requires n <= |AuxSuffixes|
    ensures |AuxPrefix(stem, n)| == n
    decreases n
  {
    if n > 0 {
      AuxPrefixSize(stem, n - 1);
      assert AuxPrefix(stem, n) == AuxPrefix(stem, n - 1) + {stem + AuxSuffixes[n - 1]};
      AuxNameFresh(stem, n);
    }
  }

  /**
   * There are exactly seven candidates, and neither the .tex source nor
   * the .pdf result is one of them.
   */
  lemma AuxNamesSeven(stem: string)
    ensures |AuxNames(stem)| == 7
    ensures stem + ".tex" !in AuxNames(stem)
    ensures stem + ".pdf" !in AuxNames(stem)
  {
    AuxPrefixSize(stem, |AuxSuffixes|);
    forall k | 0 <= k < |AuxSuffixes|
      ensures stem + AuxSuffixes[k] != stem + ".tex"
      ensures stem + AuxSuffixes[k] != stem + ".pdf"
    {
      AuxNameSuffix(stem, k);
      assert (stem + ".tex")[|stem|..] == ".tex";
      assert (stem + ".pdf")[|stem|..] == ".pdf";
    }
  }

  /** The file map after cleanup: every candidate removed except those whose removal fails. */
  function CleanedUp(files: map<string, string>, stem: string, undeletable: set<string>): map<string, string> {
    files - (AuxNames(stem) - undeletable)
  }

  /**
   * Cleanup removes exactly the candidates that exist and can be removed:
   * every other file, the .tex and the .pdf included, keeps its contents.
   */
  lemma CleanupKeepsOthers(files: map<string, string>, stem: string, undeletable: set<string>)
    ensures forall n :: n in CleanedUp(files, stem, undeletable)
                        <==> n in files && (n !in AuxNames(stem) || n in undeletable)
    ensures forall n :: n in CleanedUp(files, stem, undeletable) ==> CleanedUp(files, stem, undeletable)[n] == files[n]
    ensures stem + ".tex" in files ==> stem + ".tex" in CleanedUp(files, stem, undeletable)
    ensures stem + ".pdf" in files ==> stem + ".pdf" in CleanedUp(files, stem, undeletable)
  {
    AuxNamesSeven(stem);
  }

  /** The directory after the .tex is written and the compiler has run. */
  function Compiled(files: map<string, string>, latex: string, timestamp: string, outcome: CompileOutcome): map<string, string> {
    files[TexName(timestamp) := latex] + outcome.written
  }

  /** One render call: the command it ran, what it returned or raised, and the directory afterwards. */
  datatype RenderRun = RenderRun(command: Option<seq<string>>, result: Result<string, RenderError>, files: map<string, string>)

  /**
   * What render_latex_pdf does to a directory at `dir` holding `files`:
   * the .tex is written first; with no engine the call raises; a failing
   * run raises with the tails of its output; a missing PDF raises; and
   * only a successful call cleans up.  Each exception leaves the files as
   * they were at that point.
   */
  function RenderSpec(dir: string, files: map<string, string>, latex: string, timestamp: string,
                      host: Host, outcome: CompileOutcome, undeletable: set<string>): (run: RenderRun)
    ensures run.command.None? <==> ResolveEngine(host).None?
    ensures run.command.Some? ==> run.command.value == CompileCommand(ResolveEngine(host).value, dir, PathJoin(dir, TexName(timestamp)))
    ensures run.result.Ok? <==> ResolveEngine(host).Some? && outcome.returnCode == 0
                                && PdfName(timestamp) in Compiled(files, latex, timestamp, outcome)
    ensures run.result.Ok? ==> run.result.value == PathJoin(dir, PdfName(timestamp))
    ensures ResolveEngine(host).None? ==>
              && run.result == Err(RuntimeError(NoEngineMessage))
              && run.files == files[TexName(timestamp) := latex]
    ensures ResolveEngine(host).Some? && outcome.returnCode != 0 ==>
              && run.result == Err(RuntimeError(FailureMessage(outcome.stdout, outcome.stderr)))
              && run.files == Compiled(files, latex, timestamp, outcome)
    ensures ResolveEngine(host).Some? && outcome.returnCode == 0
            && PdfName(timestamp) !in Compiled(files, latex, timestamp, outcome) ==>
              && run.result == Err(FileNotFoundError(PdfMissingMessage(PathJoin(dir, PdfName(timestamp)))))
              && run.files == Compiled(files, latex, timestamp, outcome)
    ensures run.result.Err? ==> forall n :: n in files ==> n in run.files
    ensures run.result.Err? ==> forall n :: n in files && n != TexName(timestamp) && n !in outcome.written
                                           ==> run.files[n] == files[n]
    ensures TexName(timestamp) in run.files
    ensures TexName(timestamp) !in outcome.written ==> run.files[TexName(timestamp)] == latex
    ensures run.result.Ok? ==> PdfName(timestamp) in run.files
    ensures forall n :: n in run.files ==> n in files || n == TexName(timestamp) || n in outcome.written
  {
    var written := files[TexName(timestamp) := latex];
    match ResolveEngine(host)
    case None => RenderRun(None, Err(RuntimeError(NoEngineMessage)), written)
    case Some(engine) =>
      var command := Some(CompileCommand(engine, dir, PathJoin(dir, TexName(timestamp))));
      var compiled := written + outcome.written;
      if outcome.returnCode != 0 then
        RenderRun(command, Err(RuntimeError(FailureMessage(outcome.stdout, outcome.stderr))), compiled)
      else if PdfName(timestamp) !in compiled then
        RenderRun(command, Err(FileNotFoundError(PdfMissingMessage(PathJoin(dir, PdfName(timestamp))))), compiled)
      else
        var stem := "paper_" + timestamp;
        CleanupKeepsOthers(compiled, stem, undeletable);
        assert stem + ".tex" == TexName(timestamp) && stem + ".pdf" == PdfName(timestamp);
        RenderRun(command, Ok(PathJoin(dir, PdfName(timestamp))), CleanedUp(compiled, stem, undeletable))
  }

  /**
   * A successful call removes every auxiliary file it could remove, keeps
   * a candidate whose removal failed, and keeps every file that is not a
   * cleanup candidate with the contents the compiler run left.
   */
  lemma RenderCleansUp(dir: string, files: map<string, string>, latex: string, timestamp: string,
                       host: Host, outcome: CompileOutcome, undeletable: set<string>)
    requires RenderSpec(dir, files, latex, timestamp, host, outcome, undeletable).result.Ok?
    ensures var run := RenderSpec(dir, files, latex, timestamp, host, outcome, undeletable);
            var compiled := Compiled(files, latex, timestamp, outcome);
            && (forall n :: n in AuxNames("paper_" + timestamp) && n !in undeletable ==> n !in run.files)
            && (forall n :: n in compiled && n in undeletable ==> n in run.files && run.files[n] == compiled[n])
            && (forall n :: n in compiled && n !in AuxNames("paper_" + timestamp) ==> n in run.files && run.files[n] == compiled[n])
  {
    CleanupKeepsOthers(Compiled(files, latex, timestamp, outcome), "paper_" + timestamp, undeletable);
  }

  // ---------------------------------------------------------------------
  // The output directory and the render call
  // ---------------------------------------------------------------------

  class OutputDirectory {
    /** Path("output").absolute() */
    const path: string
    /** Whether the directory exists. */
    var created: bool
    /** The files in the directory, by name. */
    var files: map<string, string>

    constructor (cwd: string, initialFiles: map<string, string>, present: bool)
      ensures path == PathJoin(cwd, "output")
      ensures files == initialFiles && created == present
    {
      path := PathJoin(cwd, "output");
      files := initialFiles;
      created := present;
    }

    /**
     * The cleanup loop: for each candidate, `if p.exists(): p.unlink()`,
     * where an unlink that fails (a name in undeletable) is ignored and
     * the loop goes on.
     */
    method RemoveAuxFiles(stem: string, undeletable: set<string>)
      modifies this
      ensures files == CleanedUp(old(files), stem, undeletable)
      ensures created == old(created)
    {
      for i := 0 to |AuxSuffixes|
        invariant files == old(files) - (AuxPrefix(stem, i) - undeletable)
        invariant created == old(created)
      {
        var name := stem + AuxSuffixes[i];
        assert AuxPrefix(stem, i + 1) == AuxPrefix(stem, i) + {name};
        if name in files {
          if name !in undeletable {
            files := files - {name};
          }
        }
      }
    }

    /**
     * render_latex_pdf(latex): returns the command it ran (None when no
     * engine was found) and the PDF path or the exception, and leaves the
     * directory as RenderSpec says.
     */
    method Render(latex: string, timestamp: string, host: Host, outcome: CompileOutcome, undeletable: set<string>)
      returns (command: Option<seq<string>>, r: Result<string, RenderError>)
      modifies this
      ensures created
      ensures RenderRun(command, r, files) == RenderSpec(path, old(files), latex, timestamp, host, outcome, undeletable)
    {
      // output_dir.mkdir(exist_ok=True)
      created := true;
      var texName := TexName(timestamp);
      var texFile := PathJoin(path, texName);
      files := files[texName := latex];

      var engine := FirstTruthy(EngineCandidates(host));
      if engine.None? {
        return None, Err(RuntimeError(NoEngineMessage));
      }
      command := Some(CompileCommand(engine.value, path, texFile));

      files := files + outcome.written;
      if outcome.returnCode != 0 {
        var msg := FailureHeader;
        if outcome.stderr != "" {
          msg := msg + (StderrLabel + Tail(outcome.stderr, TailLength));
        }
        assert msg == FailureHeader + ErrSection(outcome.stderr);
        if outcome.stdout != "" {
          msg := msg + (StdoutLabel + Tail(outcome.stdout, TailLength));
        }
        assert msg == FailureHeader + ErrSection(outcome.stderr) + OutSection(outcome.stdout);
        return command, Err(RuntimeError(msg));
      }

      StemOfTexName(timestamp);
      var stem := Stem(texName);
      var pdfName := stem + ".pdf";
      var pdfPath := PathJoin(path, pdfName);
      if pdfName !in files {
        return command, Err(FileNotFoundError(PdfMissingMessage(pdfPath)));
      }

      RemoveAuxFiles(stem, undeletable);
      r := Ok(pdfPath);
    }
  }
}
