/** What the service does, as effects on the disk: the paths it writes to,
    the audit lines it emits, the outcome of handling one arrived file (with its
    single retry) and the retention sweep over the two log directories. */
module Pipeline {
  import opened Base
  import opened Text
  import opened Clock
  import opened Xml
  import opened Flatten
  import opened Disk

  const EndpointDirectory := @"C:\\BkavEnterprise\\" + @"ReportPy\\" + @"BkavReportProcessor_Endpoint\\" + @"report_to_soc\\"
  const EventLogDirectory := @"C:\\EndpointProcessor\\EventLog\\"
  const ServiceLogDirectory := @"C:\\EndpointProcessor\\ServiceLog\\"

  /** Seven days: files strictly older than this are swept. */
  const RotateTime := 604800

  // -------------------------------------------------------- the log writer

  /** `file_path_generation`: the directory, the day's date and `.log`. */
  function LogFilePath(directory: string, now: Instant): string
  {
    directory + DateStamp(now) + ".log"
  }

  /** Within one directory two instants share a log file exactly when they
      fall on the same day. */
  lemma LogFilePerDay(directory: string, a: Instant, b: Instant)
    ensures LogFilePath(directory, a) == LogFilePath(directory, b) <==> SameDay(a, b)
  {
    TimeStampDetermines(a, a);
    TimeStampDetermines(b, b);
    DateStampInjective(a, b);
    if LogFilePath(directory, a) == LogFilePath(directory, b) {
      var n := |directory|;
      assert LogFilePath(directory, a)[n..n + 10] == DateStamp(a);
      assert LogFilePath(directory, b)[n..n + 10] == DateStamp(b);
    }
  }

  /** The event log and the service log never share a file; neither does an
      arrived report share a path with either. */
  lemma LogFilesApart(a: Instant, b: Instant, source: string)
    requires InDir(source, EndpointDirectory)
    ensures LogFilePath(EventLogDirectory, a) != LogFilePath(ServiceLogDirectory, b)
    ensures source != LogFilePath(EventLogDirectory, a) && source != LogFilePath(ServiceLogDirectory, b)
  {
    assert LogFilePath(EventLogDirectory, a)[23] == 'E';
    assert LogFilePath(ServiceLogDirectory, b)[23] == 'S';
    assert source[..|EndpointDirectory|] == EndpointDirectory;
    assert source[4] == EndpointDirectory[4] == 'B';
    assert LogFilePath(EventLogDirectory, a)[4] == 'E';
    assert LogFilePath(ServiceLogDirectory, b)[4] == 'E';
  }

  /** `report_generation`'s line: `[<time>] [<LEVEL>] <content> `, trailing space included. */
  function AuditLine(level: string, content: string, now: Instant): string
  {
    "[" + TimeStamp(now) + "] [" + level + "] " + content + " "
  }

  function ServiceLog(now: Instant): string
  {
    LogFilePath(ServiceLogDirectory, now)
  }

  function EventLog(now: Instant): string
  {
    LogFilePath(EventLogDirectory, now)
  }

  /** `report_generation(level, content)`: one line to the day's service log. */
  function Report(level: string, content: string, now: Instant): seq<Effect>
  {
    [Write(ServiceLog(now), AuditLine(level, content, now))]
  }

  /** `delete_file(path)`: the deletion, or, when `File.Delete` throws an
      `IOException` with message `failure`, an ERROR audit line instead. */
  function DeleteFile(path: string, failure: Option<string>, now: Instant): seq<Effect>
  {
    match failure
    case None => [Delete(path)]
    case Some(message) => Report("ERROR", "File deletion failed: " + message, now)
  }

  // ------------------------------------------------- handling one arrival

  datatype Outcome = Processed | Abandoned | Crashed(fault: Fault)

  datatype Run = Run(effects: seq<Effect>, outcome: Outcome)

  function ReloadMessage(path: string): string
  {
    "The file could not be loaded. Reload it again: " + path
  }

  function ReparsedMessage(path: string): string
  {
    "Reparsing successful: " + path
  }

  function ReloadFailedMessage(path: string): string
  {
    "File reload failed: " + path
  }

  /** The work done with a loaded document's event stream: its lines to the
      day's event log, then the deletion of the source; a fault ends the
      handling where it occurs. */
  function Ingest(path: string, evs: seq<Event>, failure: Option<string>, now: Instant): Run
  {
    var writes := Writes(EventLog(now), Emitted(evs));
    match FirstFault(evs)
    case Some(f) => Run(writes, Crashed(f))
    case None => Run(writes + DeleteFile(path, failure, now), Processed)
  }

  /** The outcome table of `file_parsing` for the loader's answers on the
      first and on the second attempt. */
  function HandleArrival(path: string, first: Option<Node>, second: Option<Node>, failure: Option<string>, now: Instant): Run
  {
    var retry := Report("ERROR", ReloadMessage(path), now);
    match (first, second)
    case (Some(doc), _) => Ingest(path, DocumentEvents(doc), failure, now)
    case (None, Some(doc)) =>
      var run := Ingest(path, DocumentEvents(doc), failure, now);
      if run.outcome == Processed
      then Run(retry + run.effects + Report("INFO", ReparsedMessage(path), now), Processed)
      else Run(retry + run.effects, run.outcome)
    case (None, None) => Run(retry + Report("ERROR", ReloadFailedMessage(path), now), Abandoned)
  }

  /** A first load that succeeds: no audit line from the retry logic, and the
      second answer is never consulted. */
  lemma FirstLoadSucceeds(path: string, doc: Node, second: Option<Node>, failure: Option<string>, now: Instant)
    requires FirstFault(DocumentEvents(doc)).None?
    ensures HandleArrival(path, Some(doc), second, failure, now)
         == Run(Writes(EventLog(now), Emitted(DocumentEvents(doc))) + DeleteFile(path, failure, now), Processed)
  {
  }

  /** A failed load then a good one: one "reload it again" ERROR line, the
      lines, the deletion, then one "Reparsing successful" INFO line. */
  lemma RetrySucceeds(path: string, doc: Node, failure: Option<string>, now: Instant)
    requires FirstFault(DocumentEvents(doc)).None?
    ensures HandleArrival(path, None, Some(doc), failure, now)
         == Run(Report("ERROR", ReloadMessage(path), now)
                + Writes(EventLog(now), Emitted(DocumentEvents(doc)))
                + DeleteFile(path, failure, now)
                + Report("INFO", ReparsedMessage(path), now), Processed)
  {
    var writes := Writes(EventLog(now), Emitted(DocumentEvents(doc)));
    assert Ingest(path, DocumentEvents(doc), failure, now).effects == writes + DeleteFile(path, failure, now);
    ConcatAssoc(Report("ERROR", ReloadMessage(path), now), writes, DeleteFile(path, failure, now));
  }

  /** A document that faults part-way, on either attempt: the lines before
      the fault are written, then the handling stops without deleting the
      source or reporting success. */
  lemma FaultStopsHandling(path: string, first: Option<Node>, doc: Node, failure: Option<string>, now: Instant)
    requires first.None? || first == Some(doc)
    requires FirstFault(DocumentEvents(doc)).Some?
    ensures HandleArrival(path, first, Some(doc), failure, now)
         == Run((if first.None? then Report("ERROR", ReloadMessage(path), now) else [])
                + Writes(EventLog(now), Emitted(DocumentEvents(doc))),
                Crashed(FirstFault(DocumentEvents(doc)).value))
  {
    if first.Some? {
      assert [] + Writes(EventLog(now), Emitted(DocumentEvents(doc))) == Writes(EventLog(now), Emitted(DocumentEvents(doc)));
    }
  }

  /** Two failed loads: the two ERROR lines and nothing else; the file stays. */
  lemma RetryFails(path: string, failure: Option<string>, now: Instant)
    ensures HandleArrival(path, None, None, failure, now)
         == Run(Report("ERROR", ReloadMessage(path), now) + Report("ERROR", ReloadFailedMessage(path), now), Abandoned)
  {
  }

  /** Every step of handling `path` is that file's deletion or a line for
      one of the day's two logs. */
  predicate ArrivalStep(e: Effect, path: string, now: Instant)
  {
    e == Delete(path) || (e.Write? && (e.path == EventLog(now) || e.path == ServiceLog(now)))
  }

  ghost predicate OnlyServiceLines(es: seq<Effect>, now: Instant)
  {
    forall k :: 0 <= k < |es| ==> es[k].Write? && es[k].path == ServiceLog(now)
  }

  /** The shape every handling has: it touches the source only by deleting
      it, and after a deletion only audit lines follow. */
  ghost predicate ArrivalShape(es: seq<Effect>, path: string, now: Instant)
  {
    && (forall k :: 0 <= k < |es| ==> ArrivalStep(es[k], path, now))
    && (forall k :: 0 <= k < |es| && es[k].Delete? ==> OnlyServiceLines(es[k + 1..], now))
  }

  lemma ReportShape(level: string, content: string, now: Instant)
    ensures OnlyServiceLines(Report(level, content, now), now)
  {
  }

  /** A loaded document's handling deletes the source at most once, as its
      last step, and only when flattening went through and the deletion did
      not throw. */
  lemma IngestShape(path: string, evs: seq<Event>, failure: Option<string>, now: Instant)
    ensures var run := Ingest(path, evs, failure, now);
      && run.outcome != Abandoned
      && (forall k :: 0 <= k < |run.effects| ==> ArrivalStep(run.effects[k], path, now))
      && (Delete(path) in run.effects <==> run.outcome == Processed && failure.None?)
      && (forall k :: 0 <= k < |run.effects| && run.effects[k].Delete? ==> k == |run.effects| - 1)
  {
    var run := Ingest(path, evs, failure, now);
    var writes := Writes(EventLog(now), Emitted(evs));
    assert forall k :: 0 <= k < |writes| ==> writes[k] == Write(EventLog(now), Emitted(evs)[k]);
    if FirstFault(evs).None? {
      assert run.effects == writes + DeleteFile(path, failure, now);
      if failure.None? {
        assert run.effects[|writes|] == Delete(path);
      }
    }
  }

  /** Audit lines around a run that deletes at most once, as its last
      step, give a run of the arrival shape. */
  lemma ShapeBetweenAuditLines(a: seq<Effect>, b: seq<Effect>, c: seq<Effect>, path: string, now: Instant)
    requires OnlyServiceLines(a, now) && OnlyServiceLines(c, now)
    requires forall k :: 0 <= k < |b| ==> ArrivalStep(b[k], path, now)
    requires forall k :: 0 <= k < |b| && b[k].Delete? ==> k == |b| - 1
    ensures ArrivalShape(a + b + c, path, now)
    ensures Delete(path) in a + b + c <==> Delete(path) in b
  {
    var es := a + b + c;
    forall k | 0 <= k < |es| && es[k].Delete?
      ensures OnlyServiceLines(es[k + 1..], now)
    {
      assert |a| <= k < |a| + |b|;
      assert b[k - |a|].Delete?;
      assert es[k + 1..] == c;
    }
  }

  /** The source file is deleted exactly when a load succeeded, the whole
      document was flattened and `File.Delete` did not throw; only audit
      lines follow the deletion, and nothing but the source or the day's two
      logs is ever touched. */
  lemma DeleteOnlyAfterLoad(path: string, first: Option<Node>, second: Option<Node>, failure: Option<string>, now: Instant)
    ensures var run := HandleArrival(path, first, second, failure, now);
      && ArrivalShape(run.effects, path, now)
      && (Delete(path) in run.effects <==> (first.Some? || second.Some?) && run.outcome == Processed && failure.None?)
      && (first.None? && second.None? <==> run.outcome == Abandoned)
  {
    var retry := Report("ERROR", ReloadMessage(path), now);
    ReportShape("ERROR", ReloadMessage(path), now);
    if first.Some? {
      var ing := Ingest(path, DocumentEvents(first.value), failure, now);
      assert HandleArrival(path, first, second, failure, now) == ing;
      IngestShape(path, DocumentEvents(first.value), failure, now);
      ShapeBetweenAuditLines([], ing.effects, [], path, now);
      EmptyConcat([], ing.effects);
      ConcatEmpty(ing.effects, []);
    } else if second.Some? {
      var ing := Ingest(path, DocumentEvents(second.value), failure, now);
      var tail := if ing.outcome == Processed then Report("INFO", ReparsedMessage(path), now) else [];
      ReportShape("INFO", ReparsedMessage(path), now);
      IngestShape(path, DocumentEvents(second.value), failure, now);
      assert HandleArrival(path, first, second, failure, now) == Run(retry + ing.effects + tail, ing.outcome);
      ShapeBetweenAuditLines(retry, ing.effects, tail, path, now);
    } else {
      var failed := Report("ERROR", ReloadFailedMessage(path), now);
      ReportShape("ERROR", ReloadFailedMessage(path), now);
      assert HandleArrival(path, first, second, failure, now) == Run(retry + failed, Abandoned);
      ShapeBetweenAuditLines(retry, [], failed, path, now);
      ConcatEmpty(retry, []);
    }
  }

  /** A run of the arrival shape, on the disk: it keeps the disk well formed;
      if it deletes the source the source is gone afterwards, and otherwise
      the source is exactly as it was. */
  lemma {:induction false} ShapedRunOnDisk(d: Disk, es: seq<Effect>, path: string, now: Instant)
    requires Wf(d) && ArrivalShape(es, path, now)
    requires path != EventLog(now) && path != ServiceLog(now)
    ensures var r := Apply(d, es, now);
      && Wf(r)
      && (Delete(path) in es ==> path !in r.files)
      && (Delete(path) !in es ==> (path in r.files <==> path in d.files))
      && (Delete(path) !in es && path in d.files ==> r.files[path] == d.files[path])
  {
    ApplyWf(d, es, now);
    if Delete(path) in es {
      var k :| 0 <= k < |es| && es[k] == Delete(path);
      var post := es[k + 1..];
      assert es == es[..k] + [es[k]] + post;
      ApplyConcat(d, es[..k] + [es[k]], post, now);
      ApplyConcat(d, es[..k], [es[k]], now);
      var d1 := Apply(d, es[..k], now);
      ApplyWf(d, es[..k], now);
      RemoveSpec(d1, path);
      assert Apply(d1, [es[k]], now) == Remove(d1, path);
      assert OnlyServiceLines(post, now);
      assert forall j :: 0 <= j < |post| ==> post[j].path != path;
      ApplyUntouched(Remove(d1, path), post, path, now);
    } else {
      assert forall k :: 0 <= k < |es| ==> es[k].path != path;
      ApplyUntouched(d, es, path, now);
    }
  }

  /** On the disk: a processed arrival whose deletion succeeded leaves no
      source file; any other leaves the source exactly as it was. */
  lemma SourceAfterArrival(d: Disk, path: string, first: Option<Node>, second: Option<Node>, failure: Option<string>, now: Instant)
    requires Wf(d) && InDir(path, EndpointDirectory)
    ensures var run := HandleArrival(path, first, second, failure, now);
      var r := Apply(d, run.effects, now);
      && Wf(r)
      && (run.outcome == Processed && failure.None? ==> path !in r.files)
      && (run.outcome != Processed ==> (path in r.files <==> path in d.files))
      && (run.outcome != Processed && path in d.files ==> r.files[path] == d.files[path])
  {
    var run := HandleArrival(path, first, second, failure, now);
    LogFilesApart(now, now, path);
    DeleteOnlyAfterLoad(path, first, second, failure, now);
    ShapedRunOnDisk(d, run.effects, path, now);
  }

  // ------------------------------------------------------ the retention sweep

  /** `OnTimer`'s test: more than `RotateTime` seconds between the file's
      creation and `now`. `seconds` converts an instant to whole seconds since
      1970-01-01; the service uses `ToUnixSeconds`, and the lemmas below hold
      for any conversion. */
  predicate Expired(d: Disk, p: string, now: Instant, seconds: DateTime -> int)
  {
    seconds(now) - seconds(CreationTime(d, p)) > RotateTime
  }

  function RotateMessage(path: string): string
  {
    "Delete file by logrotate: " + path
  }

  /** Retiring one expired file: `delete_file`, then the INFO line. The map
      holds the message of the `IOException` for each path whose deletion
      fails. */
  function RetireEffects(path: string, failures: map<string, string>, now: Instant): seq<Effect>
  {
    DeleteFile(path, Lookup(failures, path), now) + Report("INFO", RotateMessage(path), now)
  }

  /** The audit lines that retiring one file appends to the service log. */
  function RetireAudit(path: string, failures: map<string, string>, now: Instant): seq<string>
  {
    (if path in failures then [AuditLine("ERROR", "File deletion failed: " + failures[path], now)] else [])
    + [AuditLine("INFO", RotateMessage(path), now)]
  }

  /** The inner loop of `OnTimer` over one listing, each file tested against
      the disk as the loop finds it. */
  function SweepPaths(d: Disk, paths: seq<string>, failures: map<string, string>, now: Instant, seconds: DateTime -> int): Disk
    decreases |paths|
  {
    if paths == [] then d
    else
      var d1 := if Expired(d, paths[0], now, seconds) then Apply(d, RetireEffects(paths[0], failures, now), now) else d;
      SweepPaths(d1, paths[1..], failures, now, seconds)
  }

  /** One pass of the outer loop: the directory is listed once, at the start. */
  function SweepDirectory(d: Disk, directory: string, failures: map<string, string>, now: Instant, seconds: DateTime -> int): Disk
  {
    SweepPaths(d, Listing(d.order, directory), failures, now, seconds)
  }

  /** `OnTimer`: the event log directory, then the service log directory. */
  function Sweep(d: Disk, failures: map<string, string>, now: Instant, seconds: DateTime -> int): Disk
  {
    SweepDirectory(SweepDirectory(d, EventLogDirectory, failures, now, seconds), ServiceLogDirectory, failures, now, seconds)
  }

  /** The paths of a listing that the sweep finds expired, in listing order. */
  function Expiring(d: Disk, paths: seq<string>, now: Instant, seconds: DateTime -> int): seq<string>
    decreases |paths|
  {
    if paths == [] then []
    else (if Expired(d, paths[0], now, seconds) then [paths[0]] else []) + Expiring(d, paths[1..], now, seconds)
  }

  /** Every audit line a run of retirements appends, lower-cased, in order. */
  function RetireLines(paths: seq<string>, failures: map<string, string>, now: Instant): seq<string>
    decreases |paths|
  {
    if paths == [] then []
    else LowerAll(RetireAudit(paths[0], failures, now)) + RetireLines(paths[1..], failures, now)
  }

  /** Today's service log is not itself up for deletion. */
  predicate FreshAudit(d: Disk, now: Instant, seconds: DateTime -> int)
  {
    ServiceLog(now) in d.files ==> !Expired(d, ServiceLog(now), now, seconds)
  }

  /** The service log grew by `lines`; it keeps its creation time, or is
      created `now` when the lines are the first it gets. */
  ghost predicate AuditGrown(d: Disk, r: Disk, lines: seq<string>, now: Instant)
  {
    var audit := ServiceLog(now);
    && LinesOf(r, audit) == LinesOf(d, audit) + lines
    && (audit in d.files ==> audit in r.files && r.files[audit].created == d.files[audit].created)
    && (audit !in d.files ==> (audit in r.files <==> lines != []))
    && (audit !in d.files && audit in r.files ==> r.files[audit].created == now)
  }

  /** Every file other than the service log is as it was, except that the
      `retiring` ones whose deletion did not fail are gone. */
  ghost predicate RetiredFrom(d: Disk, r: Disk, retiring: seq<string>, failures: map<string, string>, now: Instant)
  {
    && (forall q :: q != ServiceLog(now) ==>
          (q in r.files <==> q in d.files && !(q in retiring && q !in failures)))
    && (forall q :: q != ServiceLog(now) && q in r.files ==> r.files[q] == d.files[q])
  }

  /** A service log that the sweep itself creates is stamped `now`, and so is
      never expired. */
  lemma CreatedNowIsFresh(d: Disk, r: Disk, lines: seq<string>, now: Instant, seconds: DateTime -> int)
    requires FreshAudit(d, now, seconds) && AuditGrown(d, r, lines, now)
    ensures FreshAudit(r, now, seconds)
  {
  }

  /** Retiring one file other than the service log. */
  lemma RetireOne(d: Disk, path: string, failures: map<string, string>, now: Instant)
    requires Wf(d) && path != ServiceLog(now)
    ensures var r := Apply(d, RetireEffects(path, failures, now), now);
      && Wf(r)
      && AuditGrown(d, r, RetireLines([path], failures, now), now)
      && RetiredFrom(d, r, [path], failures, now)
  {
    RetireLinesSingle(path, failures, now);
    if path in failures {
      RetireFailing(d, path, failures, now);
    } else {
      RetireDeleting(d, path, failures, now);
    }
  }

  lemma RetireLinesSingle(path: string, failures: map<string, string>, now: Instant)
    ensures RetireLines([path], failures, now) == LowerAll(RetireAudit(path, failures, now))
  {
    assert [path][1..] == [];
    EmptyConcat<string>([], LowerAll(RetireAudit(path, failures, now)));
    assert LowerAll(RetireAudit(path, failures, now)) + [] == LowerAll(RetireAudit(path, failures, now));
  }

  lemma RetireFailing(d: Disk, path: string, failures: map<string, string>, now: Instant)
    requires Wf(d) && path != ServiceLog(now) && path in failures
    ensures var r := Apply(d, RetireEffects(path, failures, now), now);
      && Wf(r)
      && AuditGrown(d, r, LowerAll(RetireAudit(path, failures, now)), now)
      && RetiredFrom(d, r, [path], failures, now)
  {
    var audit := ServiceLog(now);
    var lines := RetireAudit(path, failures, now);
    assert RetireEffects(path, failures, now) == Writes(audit, lines);
    WritesAppendInOrder(d, audit, lines, now);
  }

  lemma RetireDeleting(d: Disk, path: string, failures: map<string, string>, now: Instant)
    requires Wf(d) && path != ServiceLog(now) && path !in failures
    ensures var r := Apply(d, RetireEffects(path, failures, now), now);
      && Wf(r)
      && AuditGrown(d, r, LowerAll(RetireAudit(path, failures, now)), now)
      && RetiredFrom(d, r, [path], failures, now)
  {
    var audit := ServiceLog(now);
    var info := AuditLine("INFO", RotateMessage(path), now);
    var d1 := Remove(d, path);
    var es := RetireEffects(path, failures, now);
    var r := Append(d1, audit, Lower(info), now);
    assert Apply(d, es, now) == r by {
      assert es == [Delete(path), Write(audit, info)];
      assert Apply(d, es, now) == Apply(d1, [Write(audit, info)], now);
      assert Apply(d1, [Write(audit, info)], now) == Apply(r, [], now);
    }
    RemoveSpec(d, path);
    AppendSpec(d1, audit, Lower(info), now);
    assert LowerAll(RetireAudit(path, failures, now)) == [Lower(info)];
    assert LinesOf(d1, audit) == LinesOf(d, audit);
    assert AuditGrown(d, r, [Lower(info)], now);
    assert RetiredFrom(d, r, [path], failures, now);
  }

  lemma {:induction false} RetireLinesConcat(a: seq<string>, b: seq<string>, failures: map<string, string>, now: Instant)
    ensures RetireLines(a + b, failures, now) == RetireLines(a, failures, now) + RetireLines(b, failures, now)
    decreases |a|
  {
    if a == [] {
      EmptyConcat(a, b);
      EmptyConcat(RetireLines(a, failures, now), RetireLines(b, failures, now));
    } else {
      TailOfConcat(a, b);
      RetireLinesConcat(a[1..], b, failures, now);
      ConcatAssoc(LowerAll(RetireAudit(a[0], failures, now)), RetireLines(a[1..], failures, now), RetireLines(b, failures, now));
    }
  }

  lemma RetiredCompose(d: Disk, m: Disk, r: Disk, a: seq<string>, b: seq<string>, failures: map<string, string>, now: Instant)
    requires RetiredFrom(d, m, a, failures, now) && RetiredFrom(m, r, b, failures, now)
    ensures RetiredFrom(d, r, a + b, failures, now)
  {
  }

  lemma AuditCompose(d: Disk, m: Disk, r: Disk, a: seq<string>, b: seq<string>, now: Instant)
    requires AuditGrown(d, m, a, now) && AuditGrown(m, r, b, now)
    ensures AuditGrown(d, r, a + b, now)
  {
    ConcatAssoc(LinesOf(d, ServiceLog(now)), a, b);
  }

  /** One listing swept: each expired file is gone unless its deletion
      failed, every other file but the service log is untouched, and the
      service log grew by the retirement lines of the expired files, in
      listing order. */
  lemma {:induction false} SweepPathsSpec(d: Disk, paths: seq<string>, failures: map<string, string>, now: Instant, seconds: DateTime -> int)
    requires Wf(d) && FreshAudit(d, now, seconds) && NoDup(paths)
    requires forall p :: p in paths ==> p in d.files
    ensures var r := SweepPaths(d, paths, failures, now, seconds);
      var gone := Expiring(d, paths, now, seconds);
      && Wf(r) && FreshAudit(r, now, seconds)
      && RetiredFrom(d, r, gone, failures, now)
      && AuditGrown(d, r, RetireLines(gone, failures, now), now)
    decreases |paths|, 0
  {
    if paths == [] {
      EmptyConcat([], LinesOf(d, ServiceLog(now)));
      assert LinesOf(d, ServiceLog(now)) + [] == LinesOf(d, ServiceLog(now));
    } else {
      var p := paths[0];
      var rest := paths[1..];
      RestOfListing(paths);
      if Expired(d, p, now, seconds) {
        var d1 := Apply(d, RetireEffects(p, failures, now), now);
        assert SweepPaths(d, paths, failures, now, seconds) == SweepPaths(d1, rest, failures, now, seconds);
        assert Expiring(d, paths, now, seconds) == [p] + Expiring(d, rest, now, seconds);
        RetireOne(d, p, failures, now);
        CreatedNowIsFresh(d, d1, RetireLines([p], failures, now), now, seconds);
        SweepRest(d, d1, [p], rest, failures, now, seconds);
      } else {
        assert SweepPaths(d, paths, failures, now, seconds) == SweepPaths(d, rest, failures, now, seconds);
        assert Expiring(d, paths, now, seconds) == [] + Expiring(d, rest, now, seconds);
        assert LinesOf(d, ServiceLog(now)) + [] == LinesOf(d, ServiceLog(now));
        assert RetireLines([], failures, now) == [];
        SweepRest(d, d, [], rest, failures, now, seconds);
      }
    }
  }

  /** The induction step: after the first file's step, the rest of the listing. */
  lemma {:induction false} SweepRest(d: Disk, d1: Disk, mine: seq<string>, rest: seq<string>, failures: map<string, string>, now: Instant, seconds: DateTime -> int)
    requires Wf(d) && FreshAudit(d, now, seconds)
    requires Wf(d1) && FreshAudit(d1, now, seconds) && NoDup(rest)
    requires forall q :: q in rest ==> q in d.files && q !in mine
    requires RetiredFrom(d, d1, mine, failures, now)
    requires AuditGrown(d, d1, RetireLines(mine, failures, now), now)
    ensures var r := SweepPaths(d1, rest, failures, now, seconds);
      var gone := mine + Expiring(d, rest, now, seconds);
      && Wf(r) && FreshAudit(r, now, seconds)
      && RetiredFrom(d, r, gone, failures, now)
      && AuditGrown(d, r, RetireLines(gone, failures, now), now)
    decreases |rest|, 1
  {
    var audit := ServiceLog(now);
    forall q | q in rest ensures q in d1.files && CreationTime(d1, q) == CreationTime(d, q) {
      if q != audit {
        assert q in d1.files && d1.files[q] == d.files[q];
      }
    }
    SweepPathsSpec(d1, rest, failures, now, seconds);
    ExpiringAgrees(d1, d, rest, now, seconds);
    var r := SweepPaths(d1, rest, failures, now, seconds);
    RetiredCompose(d, d1, r, mine, Expiring(d, rest, now, seconds), failures, now);
    AuditCompose(d, d1, r, RetireLines(mine, failures, now), RetireLines(Expiring(d, rest, now, seconds), failures, now), now);
    RetireLinesConcat(mine, Expiring(d, rest, now, seconds), failures, now);
  }

  lemma RestOfListing(paths: seq<string>)
    requires NoDup(paths) && paths != []
    ensures NoDup(paths[1..]) && paths[0] !in paths[1..]
  {
    var rest := paths[1..];
    forall k | 0 <= k < |rest| ensures rest[k] != paths[0] {
      assert rest[k] == paths[k + 1];
    }
    forall i, j | 0 <= i < j < |rest| ensures rest[i] != rest[j] {
      assert rest[i] == paths[i + 1] && rest[j] == paths[j + 1];
    }
  }

  /** Listings judged against two disks that agree on the creation times
      of its paths give the same expiring paths. */
  lemma {:induction false} ExpiringAgrees(d: Disk, e: Disk, paths: seq<string>, now: Instant, seconds: DateTime -> int)
    requires forall q :: q in paths ==> CreationTime(d, q) == CreationTime(e, q)
    ensures Expiring(d, paths, now, seconds) == Expiring(e, paths, now, seconds)
    decreases |paths|
  {
    if paths != [] {
      var rest := paths[1..];
      assert CreationTime(d, paths[0]) == CreationTime(e, paths[0]);
      assert forall q :: q in rest ==> q in paths;
      ExpiringAgrees(d, e, rest, now, seconds);
    }
  }

  /** The two log directories hold different files, and today's service log
      is not in the event log directory. */
  lemma DirectoriesApart(p: string, now: Instant)
    requires InDir(p, EventLogDirectory)
    ensures !InDir(p, ServiceLogDirectory) && p != ServiceLog(now)
  {
    assert p[..|EventLogDirectory|] == EventLogDirectory;
    assert p[23] == 'E';
    assert ServiceLog(now)[23] == 'S';
    assert ServiceLogDirectory[23] == 'S';
  }

  lemma RetireEffectsShape(path: string, failures: map<string, string>, dir: string, now: Instant)
    requires path != ServiceLog(now) && !InDir(path, dir)
    ensures var es := RetireEffects(path, failures, now);
      forall k :: 0 <= k < |es| ==>
        (if es[k].Write? then es[k].path == ServiceLog(now) else es[k].path != ServiceLog(now) && !InDir(es[k].path, dir))
  {
  }

  /** Sweeping files outside a directory keeps that directory's listing,
      except that today's service log joins its end when the sweep creates it. */
  lemma {:induction false} SweepPathsListing(d: Disk, paths: seq<string>, dir: string, failures: map<string, string>, now: Instant, seconds: DateTime -> int)
    requires Wf(d)
    requires forall p :: p in paths ==> p != ServiceLog(now) && !InDir(p, dir)
    ensures var r := SweepPaths(d, paths, failures, now, seconds);
      var audit := ServiceLog(now);
      && (audit in d.files ==> audit in r.files)
      && Listing(r.order, dir) == Listing(d.order, dir) + (if audit !in d.files && audit in r.files then Listing([audit], dir) else [])
    decreases |paths|
  {
    var audit := ServiceLog(now);
    if paths == [] {
      assert Listing(d.order, dir) + [] == Listing(d.order, dir);
    } else {
      var p := paths[0];
      var rest := paths[1..];
      assert p in paths;
      assert forall q :: q in rest ==> q in paths;
      if Expired(d, p, now, seconds) {
        var es := RetireEffects(p, failures, now);
        var d1 := Apply(d, es, now);
        assert SweepPaths(d, paths, failures, now, seconds) == SweepPaths(d1, rest, failures, now, seconds);
        RetireEffectsShape(p, failures, dir, now);
        ListingAfterLog(d, es, audit, dir, now);
        SweepPathsListing(d1, rest, dir, failures, now, seconds);
        var l0, l1 := Listing(d.order, dir), Listing(d1.order, dir);
        if audit in d.files {
          ConcatEmpty(l0, []);
          ConcatEmpty(l1, []);
        } else if audit in d1.files {
          ConcatEmpty(l1, []);
        } else {
          ConcatEmpty(l0, []);
        }
      } else {
        assert SweepPaths(d, paths, failures, now, seconds) == SweepPaths(d, rest, failures, now, seconds);
        SweepPathsListing(d, rest, dir, failures, now, seconds);
      }
    }
  }

  lemma {:induction false} ExpiringConcat(d: Disk, a: seq<string>, b: seq<string>, now: Instant, seconds: DateTime -> int)
    ensures Expiring(d, a + b, now, seconds) == Expiring(d, a, now, seconds) + Expiring(d, b, now, seconds)
    decreases |a|
  {
    if a == [] {
      EmptyConcat(a, b);
      EmptyConcat(Expiring(d, a, now, seconds), Expiring(d, b, now, seconds));
    } else {
      var head := if Expired(d, a[0], now, seconds) then [a[0]] else [];
      TailOfConcat(a, b);
      ExpiringConcat(d, a[1..], b, now, seconds);
      ConcatAssoc(head, Expiring(d, a[1..], now, seconds), Expiring(d, b, now, seconds));
    }
  }

  /** A path is expiring exactly when it is listed and expired. */
  lemma {:induction false} ExpiringMembers(d: Disk, paths: seq<string>, now: Instant, seconds: DateTime -> int)
    ensures forall q :: q in Expiring(d, paths, now, seconds) <==> q in paths && Expired(d, q, now, seconds)
    decreases |paths|
  {
    if paths != [] {
      ExpiringMembers(d, paths[1..], now, seconds);
      assert paths == [paths[0]] + paths[1..];
    }
  }

  /** A listing is well formed and holds only files of the disk. */
  lemma ListingOfDisk(d: Disk, dir: string)
    requires Wf(d)
    ensures NoDup(Listing(d.order, dir))
    ensures forall p :: p in Listing(d.order, dir) <==> p in d.files && InDir(p, dir)
  {
    ListingSpec(d.order, dir);
  }

  /** After the event log pass, the service log directory lists the files it
      listed before, plus at most today's service log, which is not expired;
      so the second pass retires the same files as a pass over the original
      listing would. */
  lemma SecondPassSees(d: Disk, d1: Disk, failures: map<string, string>, now: Instant, seconds: DateTime -> int)
    requires Wf(d) && FreshAudit(d, now, seconds) && Wf(d1) && FreshAudit(d1, now, seconds)
    requires d1 == SweepDirectory(d, EventLogDirectory, failures, now, seconds)
    requires RetiredFrom(d, d1, Expiring(d, Listing(d.order, EventLogDirectory), now, seconds), failures, now)
    requires AuditGrown(d, d1, RetireLines(Expiring(d, Listing(d.order, EventLogDirectory), now, seconds), failures, now), now)
    ensures Expiring(d1, Listing(d1.order, ServiceLogDirectory), now, seconds)
         == Expiring(d, Listing(d.order, ServiceLogDirectory), now, seconds)
  {
    var audit := ServiceLog(now);
    var el := Listing(d.order, EventLogDirectory);
    var sl := Listing(d.order, ServiceLogDirectory);
    ListingOfDisk(d, EventLogDirectory);
    ListingOfDisk(d, ServiceLogDirectory);
    forall p | p in el ensures p != audit && !InDir(p, ServiceLogDirectory) {
      DirectoriesApart(p, now);
    }
    SweepPathsListing(d, el, ServiceLogDirectory, failures, now, seconds);
    var extra := if audit !in d.files && audit in d1.files then Listing([audit], ServiceLogDirectory) else [];
    assert Listing(d1.order, ServiceLogDirectory) == sl + extra;
    ExpiringConcat(d1, sl, extra, now, seconds);
    assert Listing([audit], ServiceLogDirectory) == Listing([], ServiceLogDirectory) + (if InDir(audit, ServiceLogDirectory) then [audit] else []);
    assert Expiring(d1, extra, now, seconds) == [];
    EmptyConcat([], Expiring(d1, extra, now, seconds));
    assert Expiring(d1, sl, now, seconds) + [] == Expiring(d1, sl, now, seconds);
    ExpiringMembers(d, el, now, seconds);
    forall q | q in sl ensures CreationTime(d1, q) == CreationTime(d, q) {
      if q != audit {
        assert q !in el;
        assert q in d1.files && d1.files[q] == d.files[q];
      }
    }
    ExpiringAgrees(d1, d, sl, now, seconds);
  }

  /** The retention rule: one timer tick retires, from the event log
      directory and then from the service log directory, exactly the files
      listed there that are expired, keeping those whose deletion fails; every
      other file is untouched; and today's service log grows by the
      retirement lines, event log files first, each directory in listing
      order. */
  lemma RetentionRule(d: Disk, failures: map<string, string>, now: Instant, seconds: DateTime -> int)
    requires Wf(d) && FreshAudit(d, now, seconds)
    ensures var r := Sweep(d, failures, now, seconds);
      var gone := Expiring(d, Listing(d.order, EventLogDirectory), now, seconds)
                + Expiring(d, Listing(d.order, ServiceLogDirectory), now, seconds);
      && Wf(r) && FreshAudit(r, now, seconds)
      && RetiredFrom(d, r, gone, failures, now)
      && AuditGrown(d, r, RetireLines(gone, failures, now), now)
  {
    var el := Listing(d.order, EventLogDirectory);
    ListingOfDisk(d, EventLogDirectory);
    var d1 := SweepDirectory(d, EventLogDirectory, failures, now, seconds);
    SweepPathsSpec(d, el, failures, now, seconds);
    var sl1 := Listing(d1.order, ServiceLogDirectory);
    ListingOfDisk(d1, ServiceLogDirectory);
    SweepPathsSpec(d1, sl1, failures, now, seconds);
    SecondPassSees(d, d1, failures, now, seconds);
    var g1 := Expiring(d, el, now, seconds);
    var g2 := Expiring(d, Listing(d.order, ServiceLogDirectory), now, seconds);
    var r := Sweep(d, failures, now, seconds);
    RetiredCompose(d, d1, r, g1, g2, failures, now);
    AuditCompose(d, d1, r, RetireLines(g1, failures, now), RetireLines(g2, failures, now), now);
    RetireLinesConcat(g1, g2, failures, now);
  }

  /** The same rule, file by file: a file other than today's service log
      survives the tick exactly when it was there and is not an expired file
      of one of the two log directories whose deletion succeeded. */
  lemma RetentionRuleByFile(d: Disk, failures: map<string, string>, now: Instant, seconds: DateTime -> int)
    requires Wf(d) && FreshAudit(d, now, seconds)
    ensures var r := Sweep(d, failures, now, seconds);
      forall q :: q != ServiceLog(now) ==>
        var swept := (InDir(q, EventLogDirectory) || InDir(q, ServiceLogDirectory)) && Expired(d, q, now, seconds);
        (q in r.files <==> q in d.files && !(swept && q !in failures))
  {
    var el := Listing(d.order, EventLogDirectory);
    var sl := Listing(d.order, ServiceLogDirectory);
    RetentionRule(d, failures, now, seconds);
    ListingOfDisk(d, EventLogDirectory);
    ListingOfDisk(d, ServiceLogDirectory);
    ExpiringMembers(d, el, now, seconds);
    ExpiringMembers(d, sl, now, seconds);
  }
}
