/** Session records under any interleaving of hook processes and readers (internal/claudehook).

SessionStart hooks write the id file and nothing else; Stop hooks read both files and write the
sidecar; readers read both. There is no lock: every read of a file and every replacing rename is a
step of its own, and any process may stop for good between two steps. */
module SessionHooks {
  import opened Bytes
  import opened SessionRecord

  type Proc = nat

  /** A hook invocation's own report of the session it runs in. */
  datatype Report = Report(id: string, path: string)

  datatype Pc =
    | StartHook(report: Report)                      // before the id file is replaced
    | StopHook(report: Report)                       // before the id file is read
    | StopSawId(report: Report, idText: string)
    | StopWriting(report: Report)                    // before the sidecar is replaced
    | Reader                                         // before the id file is read
    | SawId(idText: string)
    | Got(idText: string, sideText: Option<string>)
    | Done

  /** `started` lists the reports SessionStart hooks have committed, in order. */
  datatype Sys = Sys(
    idFile: Option<string>, sidecar: Option<string>, procs: map<Proc, Pc>,
    started: seq<Report>, reported: set<Report>)

  datatype Step =
    | SessionStart(p: Proc, report: Report)
    | Stop(p: Proc, report: Report)
    | Read(p: Proc)
    | Advance(p: Proc)

  /** The record in the two texts a reader has read. */
  function RecordOf(idText: string, sideText: Option<string>): Record {
    Combined(ReadIdFile(idText), if sideText.None? then Record("", "") else ReadSidecar(sideText.value))
  }

  /** A report worth recording. */
  predicate Complete(r: Report) {
    IsSessionId(r.id) && r.path != "" && OneLine(r.path)
  }

  predicate WorthWriting(report: Report, now: Record) {
    now.id == report.id && now.path != report.path
  }

  function Goto(s: Sys, p: Proc, pc: Pc): Sys {
    s.(procs := s.procs[p := pc])
  }

  /** The state after `step`. A new process takes a number nobody has. */
  function Do(s: Sys, step: Step): Sys {
    match step
    case SessionStart(p, report) =>
      if p in s.procs then s else Goto(s, p, StartHook(report)).(reported := s.reported + {report})
    case Stop(p, report) =>
      if p in s.procs then s else Goto(s, p, StopHook(report)).(reported := s.reported + {report})
    case Read(p) =>
      if p in s.procs then s else Goto(s, p, Reader)
    case Advance(p) =>
      if p in s.procs then Next(s, p, s.procs[p]) else s
  }

  /** SessionStart: the id file is replaced. */
  function StartCommits(s: Sys, p: Proc, report: Report): Sys {
    if !IsSessionId(report.id) then Goto(s, p, Done)
    else Goto(s, p, Done).(idFile := Some(Body(report.id, report.path)), started := s.started + [report])
  }

  /** Stop: the id file is read. */
  function StopReadsId(s: Sys, p: Proc, report: Report): Sys {
    if !Complete(report) || s.idFile.None? then Goto(s, p, Done) else Goto(s, p, StopSawId(report, s.idFile.value))
  }

  /** The sidecar is read, and the path compared. */
  function StopCompares(s: Sys, p: Proc, report: Report, idText: string): Sys {
    Goto(s, p, if WorthWriting(report, RecordOf(idText, s.sidecar)) then StopWriting(report) else Done)
  }

  /** The sidecar is replaced. */
  function StopCommits(s: Sys, p: Proc, report: Report): Sys {
    Goto(s, p, Done).(sidecar := Some(Body(report.id, report.path)))
  }

  function ReaderReadsId(s: Sys, p: Proc): Sys {
    if s.idFile.None? then Goto(s, p, Done) else Goto(s, p, SawId(s.idFile.value))
  }

  function Next(s: Sys, p: Proc, pc: Pc): Sys {
    match pc
    case StartHook(report) => StartCommits(s, p, report)
    case StopHook(report) => StopReadsId(s, p, report)
    case StopSawId(report, idText) => StopCompares(s, p, report, idText)
    case StopWriting(report) => StopCommits(s, p, report)
    case Reader => ReaderReadsId(s, p)
    case SawId(idText) => Goto(s, p, Got(idText, s.sidecar))
    case _ => s
  }

  function Run(s: Sys, steps: seq<Step>): Sys
    decreases |steps|
  {
    if steps == [] then s else Run(Do(s, steps[0]), steps[1..])
  }

  ghost predicate Init(s: Sys) {
    s.idFile.None? && s.sidecar.None? && s.procs == map[] && s.started == [] && s.reported == {}
  }

  ghost predicate IdTextOf(text: string, reported: set<Report>) {
    exists r :: r in reported && IsSessionId(r.id) && text == Body(r.id, r.path)
  }

  ghost predicate SideTextOf(text: Option<string>, reported: set<Report>) {
    text.Some? ==> exists r :: r in reported && Complete(r) && text.value == Body(r.id, r.path)
  }

  ghost predicate PcInv(pc: Pc, reported: set<Report>) {
    match pc
    case StartHook(r) => r in reported
    case StopHook(r) => r in reported
    case StopSawId(r, _) => r in reported && Complete(r)
    case StopWriting(r) => r in reported && Complete(r)
    case SawId(text) => IdTextOf(text, reported)
    case Got(text, side) => IdTextOf(text, reported) && SideTextOf(side, reported)
    case _ => true
  }

  ghost predicate Inv(s: Sys) {
    // the id file holds the record of the SessionStart that committed last
    && (s.idFile.None? <==> s.started == [])
    && (s.idFile.Some? ==>
         var r := s.started[|s.started| - 1];
         r in s.reported && IsSessionId(r.id) && s.idFile.value == Body(r.id, r.path))
    && SideTextOf(s.sidecar, s.reported)
    && forall p :: p in s.procs ==> PcInv(s.procs[p], s.reported)
  }

  /** What the reader of a record makes of the path `r` reported: all of it but white space around it, or of
  what the bound on a record leaves of it. */
  ghost predicate PathOf(path: string, r: Report) {
    path == TrimSpace(r.path) || path == TrimSpace(Kept(r.path, Room(r.id)))
  }

  /** `rec` is what one hook invocation reported: its id, and no path or its path. */
  ghost predicate Reported(rec: Record, reported: set<Report>) {
    exists r ::
      && r in reported
      && IsSessionId(r.id) && rec.id == r.id
      && (rec.path == "" || (OneLine(r.path) && PathOf(rec.path, r)))
  }

  lemma PcInvGrows(pc: Pc, a: set<Report>, b: set<Report>)
    requires PcInv(pc, a) && a <= b
    ensures PcInv(pc, b)
  {
  }

  lemma InvStep(s: Sys, step: Step)
    requires Inv(s)
    ensures Inv(Do(s, step))
  {
    match step {
      case Advance(p) =>
        if p in s.procs {
          NextInv(s, p, s.procs[p]);
        }
      case _ =>
        forall q | q in s.procs ensures PcInv(s.procs[q], Do(s, step).reported) {
          PcInvGrows(s.procs[q], s.reported, Do(s, step).reported);
        }
    }
  }

  lemma NextInv(s: Sys, p: Proc, pc: Pc)
    requires Inv(s) && p in s.procs && PcInv(pc, s.reported)
    ensures Inv(Next(s, p, pc))
  {
    match pc {
      case StopSawId(r, _) =>
        GotoInv(s, p, StopWriting(r));
        GotoInv(s, p, Done);
      case StopHook(r) =>
        GotoInv(s, p, Done);
      case SawId(text) =>
        GotoInv(s, p, Got(text, s.sidecar));
      case StartHook(r) =>
      case StopWriting(r) =>
      case Reader =>
      case _ =>
    }
  }

  lemma GotoInv(s: Sys, p: Proc, pc: Pc)
    requires Inv(s) && PcInv(pc, s.reported)
    ensures Inv(Goto(s, p, pc))
  {
  }

  lemma IdTextReports(text: string, reported: set<Report>) returns (r: Report)
    requires IdTextOf(text, reported)
    ensures r in reported && IsSessionId(r.id) && ReadIdFile(text).id == r.id
    ensures ReadIdFile(text).path == "" || (OneLine(r.path) && PathOf(ReadIdFile(text).path, r))
  {
    r :| r in reported && IsSessionId(r.id) && text == Body(r.id, r.path);
    if OneLine(r.path) {
      LimitedBody(r.id, r.path);
    } else {
      assert PathLine(r.path) == PathLine("");
      LimitedBody(r.id, "");
    }
  }

  lemma TextsReport(idText: string, sideText: Option<string>, reported: set<Report>)
    requires IdTextOf(idText, reported) && SideTextOf(sideText, reported)
    ensures Reported(RecordOf(idText, sideText), reported)
  {
    var r := IdTextReports(idText, reported);
    if sideText.Some? {
      var q :| q in reported && Complete(q) && sideText.value == Body(q.id, q.path);
      SidecarExact(q.id, q.path);
    }
  }

  /** Every read in every run, from nothing: the record is one that a single hook invocation reported, the
  path whole or, past the bound on a record, its beginning. A path never comes back with the id of another
  session. */
  lemma {:induction false} ReadsAreReports(s: Sys, steps: seq<Step>)
    requires Init(s)
    ensures var t := Run(s, steps);
      forall p :: p in t.procs && t.procs[p].Got? ==> Reported(RecordOf(t.procs[p].idText, t.procs[p].sideText), t.reported)
  {
    RunInv(s, steps);
    var t := Run(s, steps);
    forall p | p in t.procs && t.procs[p].Got?
      ensures Reported(RecordOf(t.procs[p].idText, t.procs[p].sideText), t.reported)
    {
      assert PcInv(t.procs[p], t.reported);
      TextsReport(t.procs[p].idText, t.procs[p].sideText, t.reported);
    }
  }

  lemma {:induction false} RunInv(s: Sys, steps: seq<Step>)
    requires Inv(s)
    ensures Inv(Run(s, steps))
    decreases |steps|
  {
    if steps != [] {
      InvStep(s, steps[0]);
      RunInv(Do(s, steps[0]), steps[1..]);
    }
  }

  lemma IdReadsBack(id: string, path: string)
    requires IsSessionId(id)
    ensures ReadIdFile(Body(id, path)).id == id
  {
    if OneLine(path) {
      LimitedBody(id, path);
    } else {
      assert PathLine(path) == PathLine("");
      LimitedBody(id, "");
    }
  }

  /** In every run the id file holds the record of the last SessionStart hook that committed, and what
  reading it gives for the id is the id that hook reported. */
  lemma IdFileIsLastStart(s: Sys, steps: seq<Step>)
    requires Init(s)
    ensures var t := Run(s, steps);
      if t.started == [] then t.idFile.None?
      else
        var r := t.started[|t.started| - 1];
        t.idFile == Some(Body(r.id, r.path)) && ReadIdFile(Body(r.id, r.path)).id == r.id
  {
    RunInv(s, steps);
    LastStartStands(Run(s, steps));
  }

  lemma LastStartStands(t: Sys)
    requires Inv(t)
    ensures
      if t.started == [] then t.idFile.None?
      else
        var r := t.started[|t.started| - 1];
        t.idFile == Some(Body(r.id, r.path)) && ReadIdFile(Body(r.id, r.path)).id == r.id
  {
    if t.started != [] {
      var r := t.started[|t.started| - 1];
      IdReadsBack(r.id, r.path);
    }
  }

  // ---------------------------------------------------------------- invocations that run alone

  function AfterStart(s: Sys, p: Proc, report: Report): Sys {
    Do(Do(s, SessionStart(p, report)), Advance(p))
  }

  function AfterStop(s: Sys, p: Proc, report: Report): Sys {
    Do(Do(Do(Do(s, Stop(p, report)), Advance(p)), Advance(p)), Advance(p))
  }

  function AfterRead(s: Sys, p: Proc): Sys {
    Do(Do(Do(s, Read(p)), Advance(p)), Advance(p))
  }

  function PcOf(s: Sys, p: Proc): Pc {
    if p in s.procs then s.procs[p] else Done
  }

  /** These are runs, of a whole invocation each. */
  lemma InvocationsAreRuns(s: Sys, p: Proc, report: Report)
    ensures AfterStart(s, p, report) == Run(s, [SessionStart(p, report), Advance(p)])
    ensures AfterStop(s, p, report) == Run(s, [Stop(p, report), Advance(p), Advance(p), Advance(p)])
    ensures AfterRead(s, p) == Run(s, [Read(p), Advance(p), Advance(p)])
  {
    RunMore(s, SessionStart(p, report), [Advance(p)]);
    RunMore(s, Stop(p, report), [Advance(p), Advance(p), Advance(p)]);
    RunMore(s, Read(p), [Advance(p), Advance(p)]);
    RunAdvances(Do(s, SessionStart(p, report)), p);
    RunAdvances(Do(s, Stop(p, report)), p);
    RunAdvances(Do(s, Read(p)), p);
  }

  lemma RunMore(s: Sys, step: Step, steps: seq<Step>)
    ensures Run(s, [step] + steps) == Run(Do(s, step), steps)
  {
    assert ([step] + steps)[1..] == steps;
  }

  lemma RunAdvances(s: Sys, p: Proc)
    ensures var one := Do(s, Advance(p));
      && Run(s, [Advance(p)]) == one
      && Run(s, [Advance(p), Advance(p)]) == Do(one, Advance(p))
      && Run(s, [Advance(p), Advance(p), Advance(p)]) == Do(Do(one, Advance(p)), Advance(p))
  {
    var step := Advance(p);
    assert [step] == [step] + [] && [step, step] == [step] + [step] && [step, step, step] == [step] + [step, step];
    RunMore(s, step, []);
    RunMore(s, step, [step]);
    RunMore(Do(s, step), step, []);
    RunMore(s, step, [step, step]);
    RunMore(Do(s, step), step, [step]);
    RunMore(Do(Do(s, step), step), step, []);
  }

  /** What a reader that starts now and is left alone reads. */
  lemma ReadsTheFiles(s: Sys, p: Proc)
    requires p !in s.procs
    ensures PcOf(AfterRead(s, p), p) == if s.idFile.None? then Done else Got(s.idFile.value, s.sidecar)
    ensures AfterRead(s, p).idFile == s.idFile && AfterRead(s, p).sidecar == s.sidecar
  {
  }

  /** What a SessionStart hook that is left alone makes of the files. */
  lemma StartsAlone(s: Sys, p: Proc, report: Report)
    requires p !in s.procs
    ensures var t := AfterStart(s, p, report);
      && t.procs.Keys == s.procs.Keys + {p} && t.sidecar == s.sidecar
      && t.idFile == if IsSessionId(report.id) then Some(Body(report.id, report.path)) else s.idFile
  {
  }

  lemma StopHookSteps(s: Sys, p: Proc, report: Report)
    requires PcOf(s, p) == StopHook(report)
    ensures Do(s, Advance(p)) == StopReadsId(s, p, report)
  {
  }

  lemma StopSawIdSteps(s: Sys, p: Proc, report: Report, idText: string)
    requires PcOf(s, p) == StopSawId(report, idText)
    ensures Do(s, Advance(p)) == StopCompares(s, p, report, idText)
  {
  }

  lemma StopWritingSteps(s: Sys, p: Proc, report: Report)
    requires PcOf(s, p) == StopWriting(report)
    ensures Do(s, Advance(p)) == StopCommits(s, p, report)
  {
  }

  lemma DoneStays(s: Sys, p: Proc)
    requires PcOf(s, p) == Done
    ensures Do(s, Advance(p)) == s
  {
  }

  /** What a Stop hook that is left alone makes of the files. */
  lemma StopsAlone(s: Sys, p: Proc, report: Report)
    requires p !in s.procs
    ensures var t := AfterStop(s, p, report);
      && t.procs.Keys == s.procs.Keys + {p} && t.idFile == s.idFile
      && t.sidecar ==
         if Complete(report) && s.idFile.Some? && WorthWriting(report, RecordOf(s.idFile.value, s.sidecar))
         then Some(Body(report.id, report.path)) else s.sidecar
  {
    var one := Do(s, Stop(p, report));
    StopHookSteps(one, p, report);
    var two := Do(one, Advance(p));
    if Complete(report) && s.idFile.Some? {
      StopGoesOn(two, p, report, s.idFile.value);
    } else {
      DoneStays(two, p);
    }
  }

  /** The same, from where it has read the id file. */
  lemma StopGoesOn(s: Sys, p: Proc, report: Report, idText: string)
    requires PcOf(s, p) == StopSawId(report, idText)
    ensures var t := Do(Do(s, Advance(p)), Advance(p));
      && t.procs.Keys == s.procs.Keys && t.idFile == s.idFile
      && t.sidecar == if WorthWriting(report, RecordOf(idText, s.sidecar)) then Some(Body(report.id, report.path)) else s.sidecar
  {
    StopSawIdSteps(s, p, report, idText);
    var saw := Do(s, Advance(p));
    if WorthWriting(report, RecordOf(idText, s.sidecar)) {
      StopWritingSteps(saw, p, report);
    } else {
      DoneStays(saw, p);
    }
  }

  /** What the next reader makes of the two files. */
  function NextRead(s: Sys): Record {
    if s.idFile.None? then Record("", "") else RecordOf(s.idFile.value, s.sidecar)
  }

  /** A reader left alone reads the record that the files hold. */
  lemma ReadIsNextRead(s: Sys, p: Proc)
    requires p !in s.procs && s.idFile.Some?
    ensures var pc := PcOf(AfterRead(s, p), p); pc.Got? && RecordOf(pc.idText, pc.sideText) == NextRead(s)
  {
    ReadsTheFiles(s, p);
  }

  /** After a SessionStart hook the next read gives the id it reported and, within the bound, its path, unless the
  sidecar already describes that very session. */
  lemma StartThenRead(s: Sys, p: Proc, report: Report)
    requires p !in s.procs && IsSessionId(report.id) && '\n' !in report.path && '\r' !in report.path
    requires s.sidecar.Some? ==> ReadSidecar(s.sidecar.value).id != report.id
    ensures NextRead(AfterStart(s, p, report)) == Record(report.id, TrimSpace(Kept(report.path, Room(report.id))))
  {
    StartsAlone(s, p, report);
    LimitedBody(report.id, report.path);
  }

  /** The point of the sidecar: after a Stop hook of the current session the next read gives the path it reported,
  wherever the session has moved. One of another session changes no read. */
  lemma StopThenRead(s: Sys, p: Proc, report: Report)
    requires p !in s.procs && s.idFile.Some?
    requires IsSessionId(report.id) && report.path != "" && '\n' !in report.path && '\r' !in report.path
    ensures NextRead(s).id != report.id ==> NextRead(AfterStop(s, p, report)) == NextRead(s)
    ensures NextRead(s).id == report.id && TrimSpace(report.path) != "" && |Body(report.id, report.path)| <= MAX_RECORD_BYTES ==>
      NextRead(AfterStop(s, p, report)) == Record(report.id, TrimSpace(report.path))
  {
    StopsAlone(s, p, report);
    RecordOfPair(s.idFile.value, s.sidecar, report);
  }

  lemma RecordOfPair(idText: string, sideText: Option<string>, report: Report)
    requires Complete(report)
    ensures var rec := RecordOf(idText, sideText);
      && rec.id == ReadIdFile(idText).id && TrimSpace(rec.path) == rec.path
      && (rec.id == report.id && TrimSpace(report.path) != "" && |Body(report.id, report.path)| <= MAX_RECORD_BYTES ==>
           RecordOf(idText, Some(Body(report.id, report.path))) == Record(report.id, TrimSpace(report.path)))
  {
    ParsedIsTrimmed(Limited(idText));
    if sideText.Some? {
      ParsedIsTrimmed(sideText.value);
    }
    if TrimSpace(report.path) != "" && |Body(report.id, report.path)| <= MAX_RECORD_BYTES {
      SidecarWins(idText, report.id, report.path);
    }
  }

  /** Only a SessionStart hook changes the id file, and it writes the id it reported itself: a Stop hook
  that began under an earlier session cannot bring that session back. */
  lemma OnlyStartsWriteIds(s: Sys, step: Step)
    requires Do(s, step).idFile != s.idFile || Do(s, step).started != s.started
    ensures step.Advance? && step.p in s.procs && s.procs[step.p].StartHook?
    ensures var r := s.procs[step.p].report;
      Do(s, step).started == s.started + [r] && Do(s, step).idFile == Some(Body(r.id, r.path))
  {
  }
}
