/**
 * The result contract of `execute_cadquery` in both revisions. Running the
 * generated code (`exec`, including the `import cadquery` before it) and
 * exporting the STEP file (`cq.exporters.export`) are foreign operations
 * and enter as parameters; so does the fresh `str(uuid.uuid4())`.
 */
module Execution {
  import opened Wrappers
  import opened Text
  import opened SafetyGate
  import opened StepIds

  /** A caught exception: `str(e)` and `traceback.format_exc()`. */
  datatype Exception = Exception(message: string, traceback: string)

  /** What running the code did: it raised, or it finished with or without
      a `result` name in its namespace. */
  datatype RunOutcome = Raised(error: Exception) | Finished(definesResult: bool)

  /** The pair `(file_id, error)` that `execute_cadquery` returns, together
      with its two effects: whether the code was run, and the path handed
      to the exporter, if any. */
  datatype Outcome = Outcome(fileId: Option<string>, error: Option<string>, ran: bool, exportedTo: Option<string>)

  /** The first revision's message for code that leaves `result` unbound. */
  const NoResult1: string := "Code must define a 'result' variable with the CadQuery object"

  /** The second revision's message for code that leaves `result` unbound. */
  const NoResult2: string := "The model failed to define the 'result' variable."

  /** The second revision's message for code that fails the gate. */
  const SecurityError: string := "Security Error: Forbidden modules or functions detected in generated code."

  /** The first revision's message for a caught exception: the fixed
      prefix, and the traceback at the end. It is never empty, so `if error:`
      sees it. */
  function Describe1(e: Exception): (msg: string)
    ensures "Error executing CadQuery code: " <= msg
      && |e.traceback| <= |msg| && msg[|msg| - |e.traceback|..] == e.traceback
  {
    "Error executing CadQuery code: " + e.message + "\n" + e.traceback
  }

  /** The second revision's message for a caught exception: the fixed
      prefix, and the traceback at the end. */
  function Describe2(e: Exception): (msg: string)
    ensures "Execution Error:\n" <= msg
      && |e.traceback| <= |msg| && msg[|msg| - |e.traceback|..] == e.traceback
  {
    "Execution Error:\n" + e.traceback
  }

  /** The `try` block both revisions share: run, look for `result`, export
      to `<stepDir>/<newId>.step`; any exception becomes an error message. */
  function RunAndExport(
    code: string, run: string -> RunOutcome, exportStep: string -> Option<Exception>,
    stepDir: string, newId: string, noResult: string, describe: Exception -> string): (out: Outcome)
    ensures out.ran && (out.fileId.Some? <==> out.error.None?)
    ensures out.fileId.Some? <==> run(code) == Finished(true) && exportStep(StepPath(stepDir, newId)).None?
    ensures out.fileId.Some? ==> out.fileId.value == newId && out.exportedTo == Some(StepPath(stepDir, newId))
    ensures run(code) == Finished(false) ==> out.error == Some(noResult) && out.exportedTo.None?
    ensures run(code).Raised? ==> out.error == Some(describe(run(code).error)) && out.exportedTo.None?
    ensures run(code) == Finished(true) && exportStep(StepPath(stepDir, newId)).Some? ==>
      out.error == Some(describe(exportStep(StepPath(stepDir, newId)).value))
  {
    match run(code)
    case Raised(e) => Outcome(None, Some(describe(e)), true, None)
    case Finished(definesResult) =>
      if !definesResult then Outcome(None, Some(noResult), true, None)
      else
        var path := StepPath(stepDir, newId);
        match exportStep(path)
        case Some(e) => Outcome(None, Some(describe(e)), true, Some(path))
        case None => Outcome(Some(newId), None, true, Some(path))
  }

  /** Python truthiness of an optional string, as in `if error:`. */
  predicate Truthy(s: Option<string>) {
    s.Some? && |s.value| > 0
  }

  /** `execute_cadquery` of the first revision. */
  function ExecuteCadquery1(
    code: string, run: string -> RunOutcome, exportStep: string -> Option<Exception>,
    stepDir: string, newId: string): (out: Outcome)
    ensures out.ran && (out.fileId.Some? <==> out.error.None?) && (out.fileId.Some? <==> !Truthy(out.error))
    ensures out.fileId.Some? <==> run(code) == Finished(true) && exportStep(StepPath(stepDir, newId)).None?
    ensures out.fileId.Some? ==> out.fileId.value == newId && out.exportedTo == Some(StepPath(stepDir, newId))
    ensures run(code) == Finished(false) ==> out.error == Some(NoResult1) && out.exportedTo.None?
    ensures run(code).Raised? ==> out.error == Some(Describe1(run(code).error)) && out.exportedTo.None?
    ensures run(code) == Finished(true) && exportStep(StepPath(stepDir, newId)).Some? ==>
      out.error == Some(Describe1(exportStep(StepPath(stepDir, newId)).value))
  {
    RunAndExport(code, run, exportStep, stepDir, newId, NoResult1, Describe1)
  }

  /** `execute_cadquery` of the second revision: the gate first. */
  function ExecuteCadquery2(
    code: string, run: string -> RunOutcome, exportStep: string -> Option<Exception>,
    stepDir: string, newId: string): (out: Outcome)
    ensures out.ran <==> IsSafeCode(code)
    ensures !IsSafeCode(code) ==> out.error == Some(SecurityError) && out.fileId.None? && out.exportedTo.None?
    ensures (out.fileId.Some? <==> out.error.None?) && (out.fileId.Some? <==> !Truthy(out.error))
    ensures out.fileId.Some? <==> IsSafeCode(code) && run(code) == Finished(true) && exportStep(StepPath(stepDir, newId)).None?
    ensures out.fileId.Some? ==> out.fileId.value == newId && out.exportedTo == Some(StepPath(stepDir, newId))
    ensures IsSafeCode(code) && run(code) == Finished(false) ==> out.error == Some(NoResult2) && out.exportedTo.None?
    ensures IsSafeCode(code) && run(code).Raised? ==> out.error == Some(Describe2(run(code).error)) && out.exportedTo.None?
    ensures IsSafeCode(code) && run(code) == Finished(true) && exportStep(StepPath(stepDir, newId)).Some? ==>
      out.error == Some(Describe2(exportStep(StepPath(stepDir, newId)).value))
  {
    if !IsSafeCode(code) then Outcome(None, Some(SecurityError), false, None)
    else RunAndExport(code, run, exportStep, stepDir, newId, NoResult2, Describe2)
  }

  /** Refused code is never handed to the executor: the outcome is the same
      whatever running or exporting would have done. */
  lemma RefusedCodeIgnoresExecutor(
    code: string, run1: string -> RunOutcome, run2: string -> RunOutcome,
    export1: string -> Option<Exception>, export2: string -> Option<Exception>,
    stepDir: string, id1: string, id2: string)
    requires !IsSafeCode(code)
    ensures ExecuteCadquery2(code, run1, export1, stepDir, id1) == ExecuteCadquery2(code, run2, export2, stepDir, id2)
  {
  }

  /** The ID the second revision hands out, when shaped like a generated
      one, is accepted by both download checks, and they serve exactly the
      file that was exported. */
  lemma ExportedFileIsServed(
    code: string, run: string -> RunOutcome, exportStep: string -> Option<Exception>,
    stepDir: string, groups: seq<string>)
    requires IsHexGroups(groups)
    ensures var out := ExecuteCadquery2(code, run, exportStep, stepDir, Join(groups, "-"));
      out.fileId.Some? ==>
        GetStep1(stepDir, out.fileId.value) == StepFile(out.exportedTo.value)
        && GetStep2(stepDir, out.fileId.value) == StepFile(out.exportedTo.value)
  {
    GeneratedIdAccepted(groups);
  }
}
