/** The statuses a job passes through: pending on creation, running/completed/failed during analysis,
    rendering/done/failed during export, and the guard that admits an export only from completed. */
module Lifecycle {

  datatype JobStatus = Pending | Running | Completed | Failed | Rendering | Done

  /** The string the backend stores in `job.status`; the routes' string tests against "running" and
      "completed" are tests of the status. */
  function Name(s: JobStatus): (n: string)
    ensures n == "running" <==> s == Running
    ensures n == "completed" <==> s == Completed
  {
    match s
    case Pending => "pending"
    case Running => "running"
    case Completed => "completed"
    case Failed => "failed"
    case Rendering => "rendering"
    case Done => "done"
  }

  lemma NameInjective(s: JobStatus, t: JobStatus)
    requires Name(s) == Name(t)
    ensures s == t
  {
  }

  /** How the analysis task ends. */
  function AfterAnalysis(ok: bool): (s: JobStatus)
    ensures s == Completed || s == Failed
    ensures s == Completed <==> ok
  {
    if ok then Completed else Failed
  }

  /** How the export task ends. */
  function AfterExport(ok: bool): (s: JobStatus)
    ensures s == Done || s == Failed
    ensures s == Done <==> ok
  {
    if ok then Done else Failed
  }

  /** The export route admits a job only in this status. */
  predicate Exportable(s: JobStatus)
  {
    s == Completed
  }

  /** One export request against a job in status `s`, followed (when admitted) by the export task with outcome `ok`. */
  function ExportAttempt(s: JobStatus, ok: bool): (t: JobStatus)
    ensures !Exportable(s) ==> t == s
    ensures Exportable(s) ==> t == Done || t == Failed
  {
    if Exportable(s) then AfterExport(ok) else s
  }

  /** A sequence of export requests, each followed by its task when admitted. */
  function ExportAttempts(s: JobStatus, oks: seq<bool>): JobStatus
    decreases |oks|
  {
    if oks == [] then s else ExportAttempts(ExportAttempt(s, oks[0]), oks[1..])
  }

  /** How many of those requests the route admitted (each admitted request starts one export task). */
  function AdmittedExports(s: JobStatus, oks: seq<bool>): nat
    decreases |oks|
  {
    if oks == [] then 0
    else (if Exportable(s) then 1 else 0) + AdmittedExports(ExportAttempt(s, oks[0]), oks[1..])
  }

  /** Done and failed are final for the export route: no request is admitted and the status stays. */
  lemma {:induction false} TerminalAbsorbs(s: JobStatus, oks: seq<bool>)
    requires s == Done || s == Failed
    ensures ExportAttempts(s, oks) == s
    ensures AdmittedExports(s, oks) == 0
  {
    if oks != [] {
      TerminalAbsorbs(ExportAttempt(s, oks[0]), oks[1..]);
    }
  }

  /** A job is exported at most once, and exactly once when it is completed and asked at least once. */
  lemma {:induction false} ExportedAtMostOnce(s: JobStatus, oks: seq<bool>)
    ensures AdmittedExports(s, oks) <= 1
    ensures AdmittedExports(s, oks) == 1 <==> Exportable(s) && oks != []
  {
    if oks != [] {
      var t := ExportAttempt(s, oks[0]);
      if Exportable(s) {
        TerminalAbsorbs(t, oks[1..]);
      } else {
        ExportedAtMostOnce(t, oks[1..]);
        assert t == s;
      }
    }
  }
}
