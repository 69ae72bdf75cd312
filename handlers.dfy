/**
 * What the `/init`, `/plan`, `/apply` and `/destroy` handlers of main.py answer,
 * given what the `terraform` process returned. Running the process is not part
 * of this model: its exit code and captured streams are the input.
 *
 * A non-zero exit code gives a server error carrying the captured standard
 * error (stripped, for apply); exit code zero gives the handler's status message
 * and the cleaned output lines (init, plan, apply) or the raw output (destroy).
 */
module Handlers {
  import Ansi
  import Cleaning

  /** What `subprocess.run(..., capture_output=True, text=True)` hands back. */
  datatype Completed = Completed(returnCode: int, stdout: string, stderr: string)

  /** The `output` field of a response: a list of lines, or one text. */
  datatype Output = Lines(lines: seq<string>) | Text(text: string)

  /** A success body `{status, output}`, or the `detail` of a status-500 error. */
  datatype Response = Ok(status: string, output: Output) | ServerError(detail: string)

  const InitStatus: string := "Terraform initialized successfully."
  const PlanStatus: string := "Terraform plan executed successfully."
  const ApplyStatus: string := "Terraform apply executed successfully."
  const DestroyStatus: string := "Infrastructure destroyed successfully."

  /**
   * `lines` is the cleaned form of `stdout`: a non-empty list of lines without
   * newlines whose newline-join is the stripped, sanitised text. No other list
   * is (Cleaning.CleanIsSplitOfText).
   */
  predicate IsCleanedOutput(lines: seq<string>, stdout: string, ws: char -> bool) {
    && |lines| >= 1
    && (forall i :: 0 <= i < |lines| ==> '\n' !in lines[i])
    && Cleaning.Join(lines, '\n') == Cleaning.Strip(Ansi.Sanitize(stdout), ws)
  }

  /** The shared shape of init, plan and apply: an error with `detail`, or `status` and the cleaned lines. */
  function CleanedResponse(run: Completed, status: string, detail: string, ws: char -> bool): (r: Response)
    ensures r.Ok? <==> run.returnCode == 0
    ensures r.ServerError? ==> r.detail == detail
    ensures r.Ok? ==> r.status == status && r.output.Lines? && IsCleanedOutput(r.output.lines, run.stdout, ws)
  {
    if run.returnCode != 0 then ServerError(detail)
    else Ok(status, Lines(Cleaning.Clean(run.stdout, ws)))
  }

  /** `/init`: the raw standard error on failure. */
  function Init(run: Completed, ws: char -> bool): (r: Response)
    ensures r.Ok? <==> run.returnCode == 0
    ensures r.ServerError? ==> r.detail == run.stderr
    ensures r.Ok? ==> r.status == InitStatus && r.output.Lines? && IsCleanedOutput(r.output.lines, run.stdout, ws)
  {
    CleanedResponse(run, InitStatus, run.stderr, ws)
  }

  /** `/plan`: the raw standard error on failure. */
  function Plan(run: Completed, ws: char -> bool): (r: Response)
    ensures r.Ok? <==> run.returnCode == 0
    ensures r.ServerError? ==> r.detail == run.stderr
    ensures r.Ok? ==> r.status == PlanStatus && r.output.Lines? && IsCleanedOutput(r.output.lines, run.stdout, ws)
  {
    CleanedResponse(run, PlanStatus, run.stderr, ws)
  }

  /** `/apply` (the standalone variant in main.py): the stripped standard error on failure. */
  function Apply(run: Completed, ws: char -> bool): (r: Response)
    ensures r.Ok? <==> run.returnCode == 0
    ensures r.ServerError? ==> r.detail == Cleaning.Strip(run.stderr, ws)
    ensures r.Ok? ==> r.status == ApplyStatus && r.output.Lines? && IsCleanedOutput(r.output.lines, run.stdout, ws)
  {
    CleanedResponse(run, ApplyStatus, Cleaning.Strip(run.stderr, ws), ws)
  }

  /** `/destroy`: the raw standard output on success, the raw standard error on failure. */
  function Destroy(run: Completed): (r: Response)
    ensures r.Ok? <==> run.returnCode == 0
    ensures r.ServerError? ==> r.detail == run.stderr
    ensures r.Ok? ==> r.status == DestroyStatus && r.output == Text(run.stdout)
  {
    if run.returnCode != 0 then ServerError(run.stderr) else Ok(DestroyStatus, Text(run.stdout))
  }

  /** The lines of a successful init, plan or apply are exactly Cleaning.Clean of its output. */
  lemma CleanedLinesAreClean(run: Completed, ws: char -> bool)
    requires run.returnCode == 0
    ensures Init(run, ws).output.lines == Cleaning.Clean(run.stdout, ws)
    ensures Plan(run, ws).output.lines == Cleaning.Clean(run.stdout, ws)
    ensures Apply(run, ws).output.lines == Cleaning.Clean(run.stdout, ws)
  {
    var lines := Init(run, ws).output.lines;
    Cleaning.CleanIsSplitOfText(run.stdout, ws, lines);
  }

  /** Init that exits 0 with output `"a\nb\n"` answers the lines `["a", "b"]`. */
  lemma InitTwoLines(run: Completed)
    requires run.returnCode == 0 && run.stdout == "a\nb\n"
    ensures Init(run, Cleaning.PythonSpace) == Ok(InitStatus, Lines(["a", "b"]))
  {
    Cleaning.CleanTwoLines(run.stdout);
    CleanedLinesAreClean(run, Cleaning.PythonSpace);
  }

  /** Destroy that exits 1 with standard error `"denied"` answers an error carrying `"denied"`. */
  lemma DestroyDenied(run: Completed)
    requires run.returnCode == 1 && run.stderr == "denied"
    ensures Destroy(run) == ServerError("denied")
  {
  }
}
