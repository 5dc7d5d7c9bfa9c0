/** The service itself: the file system it calls into, held in memory, and the
    processor whose methods change it. Each method is proved to leave the file
    system in the state that the effects of the `Pipeline` model describe. */
module Service {
  import opened Base
  import opened Text
  import opened Clock
  import opened Xml
  import opened Flatten
  import opened Disk
  import opened Pipeline
  import opened Messages

  /** The files the service reads and writes, with their creation times and
      lines, and the order in which they were created. */
  class FileSystem {
    var files: map<string, FileEntry>
    var order: seq<string>

    function State(): Disk
      reads this
    {
      Disk(files, order)
    }

    ghost predicate Valid()
      reads this
    {
      Wf(State())
    }

    constructor ()
      ensures Valid() && State() == Disk(map[], [])
    {
      files := map[];
      order := [];
    }

    /** `File.AppendText(path)` followed by `WriteLine(line)`. */
    method AppendLine(path: string, line: string, now: Instant)
      requires Valid()
      modifies this
      ensures Valid() && State() == Append(old(State()), path, line, now)
    {
      AppendSpec(State(), path, line, now);
      if path in files {
        files := files[path := FileEntry(files[path].created, files[path].lines + [line])];
      } else {
        files := files[path := FileEntry(now, [line])];
        order := order + [path];
      }
    }

    /** `File.Delete(path)` when it does not throw. */
    method Delete(path: string)
      requires Valid()
      modifies this
      ensures Valid() && State() == Remove(old(State()), path)
    {
      RemoveSpec(State(), path);
      files := files - {path};
      order := Without(order, path);
    }

    /** `Directory.GetFiles(dir)`: the files directly in `dir`, in creation order. */
    method GetFiles(dir: string) returns (paths: seq<string>)
      ensures paths == Listing(order, dir)
      ensures Valid() ==> NoDup(paths) && forall p :: p in paths <==> p in files && InDir(p, dir)
    {
      paths := [];
      var i := 0;
      while i < |order|
        invariant 0 <= i <= |order|
        invariant paths == Listing(order[..i], dir)
      {
        assert order[..i + 1][..i] == order[..i];
        if InDir(order[i], dir) {
          paths := paths + [order[i]];
        }
        i := i + 1;
      }
      assert order[..i] == order;
      if Valid() {
        ListingSpec(order, dir);
      }
    }
  }

  // ------------------------------------------------- writing event streams

  /** What a run of events has written so far, when none of them faulted. */
  lemma EmitMore(d: Disk, done: seq<Event>, more: seq<Event>, log: string, now: Instant)
    requires FirstFault(done).None?
    ensures Apply(d, Writes(log, Emitted(done + more)), now)
         == Apply(Apply(d, Writes(log, Emitted(done)), now), Writes(log, Emitted(more)), now)
    ensures FirstFault(done + more) == FirstFault(more)
  {
    StreamConcat(done, more);
    WritesConcat(log, Emitted(done), Emitted(more));
    ApplyConcat(d, Writes(log, Emitted(done)), Writes(log, Emitted(more)), now);
  }

  /** One more good event of a stream is one more line appended to the log. */
  lemma WriteNext(d: Disk, all: seq<Event>, n: int, log: string, now: Instant)
    requires 0 <= n < |all| && all[n].Ok? && FirstFault(all[..n]).None?
    ensures FirstFault(all[..n + 1]).None?
    ensures Apply(d, Writes(log, Emitted(all[..n + 1])), now)
         == Append(Apply(d, Writes(log, Emitted(all[..n])), now), log, Lower(all[n].value), now)
  {
    assert all[..n + 1] == all[..n] + [all[n]];
    EmitMore(d, all[..n], [all[n]], log, now);
    assert [all[n]][1..] == [];
    assert Emitted([all[n]]) == [all[n].value];
    assert Writes(log, [all[n].value]) == [Write(log, all[n].value)];
  }

  /** A fault after a good stretch: the stretch is all that is written. */
  lemma FaultAt(all: seq<Event>, n: int)
    requires 0 <= n < |all| && all[n].Err? && FirstFault(all[..n]).None?
    ensures FirstFault(all) == Some(all[n].error)
    ensures Emitted(all) == Emitted(all[..n])
  {
    assert all == all[..n] + all[n..];
    StreamConcat(all[..n], all[n..]);
    assert all[n..][0] == all[n];
  }

  /** The pairs of one more entry follow those of the entries before it. */
  lemma PairsStep(prefix: string, entries: seq<Node>, i: int)
    requires 0 <= i < |entries|
    ensures DetailPairs(entries[..i + 1]) == DetailPairs(entries[..i]) + |ChildNodes(entries[i])|
    ensures DetailPairs(entries[..i + 1]) <= |DetailEvents(prefix, entries)|
  {
    var pre, one, post := entries[..i], [entries[i]], entries[i + 1..];
    assert entries[..i + 1] == pre + one;
    assert entries == pre + one + post;
    DetailPairsConcat(pre, one);
    DetailPairsConcat(pre + one, post);
    assert one[1..] == [];
    DetailEventsCount(prefix, entries);
  }

  /** `s` is the disk `d0` after the first `n` events of `all` went to
      `log`, none of them a fault. */
  ghost predicate Emitting(s: Disk, d0: Disk, all: seq<Event>, n: int, log: string, now: Instant)
  {
    && 0 <= n <= |all|
    && FirstFault(all[..n]).None?
    && s == Apply(d0, Writes(log, Emitted(all[..n])), now)
  }

  /** The next event of a stream: a line appended to the log, or the fault
      that ends the stream with what was written so far. */
  lemma StreamStep(s: Disk, d0: Disk, all: seq<Event>, n: int, log: string, now: Instant)
    requires Emitting(s, d0, all, n, log, now) && n < |all|
    ensures all[n].Ok? ==> Emitting(Append(s, log, Lower(all[n].value), now), d0, all, n + 1, log, now)
    ensures all[n].Err? ==> FirstFault(all) == Some(all[n].error) && s == Apply(d0, Writes(log, Emitted(all)), now)
  {
    if all[n].Ok? {
      WriteNext(d0, all, n, log, now);
    } else {
      FaultAt(all, n);
    }
  }

  /** A stream written to the end without a fault. */
  lemma StreamDone(s: Disk, d0: Disk, all: seq<Event>, n: int, log: string, now: Instant)
    requires Emitting(s, d0, all, n, log, now) && n == |all|
    ensures FirstFault(all).None? && s == Apply(d0, Writes(log, Emitted(all)), now)
  {
    assert all[..n] == all;
  }

  /** The processor: `write_to_file`, `report_generation`, `delete_file`, the
      six `*_to_event` routines, `file_parsing` and `OnTimer`. The clock is
      read once per call and handed in as `now`. */
  class EndpointProcessor {
    const fs: FileSystem

    constructor (fs: FileSystem)
      ensures this.fs == fs
    {
      this.fs := fs;
    }

    /** `write_to_file`: exactly one line, the content lower-cased, at the end
        of the file; every other file stays as it was. */
    method WriteToFile(content: string, path: string, now: Instant)
      requires fs.Valid()
      modifies fs
      ensures fs.Valid()
      ensures fs.State() == Apply(old(fs.State()), [Write(path, content)], now)
      ensures fs.State() == Append(old(fs.State()), path, Lower(content), now)
      ensures LinesOf(fs.State(), path) == LinesOf(old(fs.State()), path) + [Lower(content)]
      ensures forall q :: q != path ==> (q in fs.files <==> q in old(fs.files))
      ensures forall q :: q != path && q in old(fs.files) ==> fs.files[q] == old(fs.files[q])
    {
      AppendSpec(fs.State(), path, Lower(content), now);
      fs.AppendLine(path, Lower(content), now);
      assert [Write(path, content)][1..] == [];
    }

    /** `report_generation`: the audit line, to the day's service log. */
    method ReportGeneration(level: string, content: string, now: Instant)
      requires fs.Valid()
      modifies fs
      ensures fs.Valid()
      ensures fs.State() == Apply(old(fs.State()), Report(level, content, now), now)
    {
      var path := LogFilePath(ServiceLogDirectory, now);
      var message := AuditLine(level, content, now);
      WriteToFile(message, path, now);
    }

    /** `delete_file`: `failure` is the message of the `IOException` that
        `File.Delete` throws, if it throws. */
    method DeleteFile(path: string, failure: Option<string>, now: Instant)
      requires fs.Valid()
      modifies fs
      ensures fs.Valid()
      ensures fs.State() == Apply(old(fs.State()), Pipeline.DeleteFile(path, failure, now), now)
    {
      match failure {
        case None =>
          fs.Delete(path);
        case Some(message) =>
          ReportGeneration("ERROR", "File deletion failed: " + message, now);
      }
    }

    /** An event of a section reaching the log: its line is written, or its
        exception propagates and nothing is. */
    method WriteEvent(ev: Event, log: string, now: Instant) returns (fault: Option<Fault>)
      requires fs.Valid()
      modifies fs
      ensures fs.Valid()
      ensures ev.Ok? ==> fault.None? && fs.State() == Append(old(fs.State()), log, Lower(ev.value), now)
      ensures ev.Err? ==> fault == Some(ev.error) && fs.State() == old(fs.State())
    {
      match ev {
        case Err(f) =>
          return Some(f);
        case Ok(line) =>
          WriteToFile(line, log, now);
          return None;
      }
    }

    /** `connection_to_event`, `malware_to_event` and `vulnerability_to_event`
        (the same code with a different category): one line per (entry,
        detail) pair of the first section node. */
    method DetailToEvent(c: Category, ts: string, org: string, nodes: seq<Node>, log: string, now: Instant)
      returns (fault: Option<Fault>)
      requires c == Connection || c == Malware || c == Vulnerability
      requires fs.Valid()
      modifies fs
      ensures fs.Valid()
      ensures fs.State() == Apply(old(fs.State()), Writes(log, Emitted(CategoryEvents(c, ts, org, nodes))), now)
      ensures fault == FirstFault(CategoryEvents(c, ts, org, nodes))
    {
      if nodes == [] {
        return Some(MissingElement(Tag(c)));
      }
      var prefix := Prefix(ts, org, Label(c));
      var entries := ChildNodes(nodes[0]);
      ghost var all := DetailEvents(prefix, entries);
      assert CategoryEvents(c, ts, org, nodes) == all;
      ghost var d0 := fs.State();
      ghost var n := 0;
      DetailEventsCount(prefix, entries);
      var i := 0;
      while i < |entries|
        invariant 0 <= i <= |entries|
        invariant fs.Valid()
        invariant n == DetailPairs(entries[..i])
        invariant Emitting(fs.State(), d0, all, n, log, now)
      {
        var entry := entries[i];
        var details := ChildNodes(entry);
        PairsStep(prefix, entries, i);
        var k := 0;
        while k < |details|
          invariant 0 <= k <= |details|
          invariant fs.Valid()
          invariant n == DetailPairs(entries[..i]) + k
          invariant Emitting(fs.State(), d0, all, n, log, now)
        {
          DetailEventsAt(prefix, entries, i, k);
          var ev := EventMessage(prefix, entry.attrs, ChildNodes(details[k]));
          StreamStep(fs.State(), d0, all, n, log, now);
          fault := WriteEvent(ev, log, now);
          if fault.Some? {
            return;
          }
          n := n + 1;
          k := k + 1;
        }
        i := i + 1;
      }
      assert entries[..i] == entries;
      StreamDone(fs.State(), d0, all, n, log, now);
      return None;
    }

    /** `os_to_event` and `qualityfeature_to_event`: one line per entry of the
        first section node, from its attributes and its children; a text
        entry has no attribute collection and faults. */
    method EntryToEvent(c: Category, ts: string, org: string, nodes: seq<Node>, log: string, now: Instant)
      returns (fault: Option<Fault>)
      requires c == OS || c == QualityFeature
      requires fs.Valid()
      modifies fs
      ensures fs.Valid()
      ensures fs.State() == Apply(old(fs.State()), Writes(log, Emitted(CategoryEvents(c, ts, org, nodes))), now)
      ensures fault == FirstFault(CategoryEvents(c, ts, org, nodes))
    {
      if nodes == [] {
        return Some(MissingElement(Tag(c)));
      }
      var prefix := Prefix(ts, org, Label(c));
      var entries := ChildNodes(nodes[0]);
      ghost var all := EntryEvents(prefix, entries);
      ghost var d0 := fs.State();
      var i := 0;
      while i < |entries|
        invariant 0 <= i <= |entries|
        invariant fs.Valid()
        invariant Emitting(fs.State(), d0, all, i, log, now)
      {
        var ev: Event;
        match entries[i] {
          case Text(_) =>
            ev := Err(NullAttributes);
          case Element(_, attrs, children) =>
            ev := EventMessage(prefix, attrs, children);
        }
        EntryEventsShape(prefix, entries, i);
        assert ev == all[i];
        StreamStep(fs.State(), d0, all, i, log, now);
        fault := WriteEvent(ev, log, now);
        if fault.Some? {
          return;
        }
        i := i + 1;
      }
      StreamDone(fs.State(), d0, all, i, log, now);
      return None;
    }

    /** `update_to_event`: one line per entry, its own name and text only. */
    method UpdateToEvent(ts: string, org: string, nodes: seq<Node>, log: string, now: Instant)
      returns (fault: Option<Fault>)
      requires fs.Valid()
      modifies fs
      ensures fs.Valid()
      ensures fs.State() == Apply(old(fs.State()), Writes(log, Emitted(CategoryEvents(Update, ts, org, nodes))), now)
      ensures fault == FirstFault(CategoryEvents(Update, ts, org, nodes))
    {
      if nodes == [] {
        return Some(MissingElement(Tag(Update)));
      }
      var prefix := Prefix(ts, org, Label(Update));
      var entries := ChildNodes(nodes[0]);
      ghost var all := UpdateEvents(prefix, entries);
      ghost var d0 := fs.State();
      var i := 0;
      while i < |entries|
        invariant 0 <= i <= |entries|
        invariant fs.Valid()
        invariant Emitting(fs.State(), d0, all, i, log, now)
      {
        var message := prefix + (Name(entries[i]) + ":" + InnerText(entries[i]));
        assert all[i] == Ok(message);
        StreamStep(fs.State(), d0, all, i, log, now);
        WriteToFile(message, log, now);
        i := i + 1;
      }
      StreamDone(fs.State(), d0, all, i, log, now);
      return None;
    }

    /** The written stream after one more category: run only when nothing
        has faulted yet, otherwise skipped. */
    method NextCategory(c: Category, doc: Node, ts: string, org: string, log: string, now: Instant,
                        ghost d0: Disk, ghost sofar: seq<Event>, pending: Option<Fault>)
      returns (fault: Option<Fault>)
      requires fs.Valid()
      requires pending == FirstFault(sofar)
      requires fs.State() == Apply(d0, Writes(log, Emitted(sofar)), now)
      modifies fs
      ensures fs.Valid()
      ensures fault == FirstFault(sofar + CategoryIn(doc, c, ts, org))
      ensures fs.State() == Apply(d0, Writes(log, Emitted(sofar + CategoryIn(doc, c, ts, org))), now)
    {
      ghost var evs := CategoryIn(doc, c, ts, org);
      if pending.Some? {
        StreamConcat(sofar, evs);
        return pending;
      }
      var nodes := ElementsByTagName(doc, Tag(c));
      match c {
        case Connection => fault := DetailToEvent(c, ts, org, nodes, log, now);
        case Malware => fault := DetailToEvent(c, ts, org, nodes, log, now);
        case Vulnerability => fault := DetailToEvent(c, ts, org, nodes, log, now);
        case OS => fault := EntryToEvent(c, ts, org, nodes, log, now);
        case QualityFeature => fault := EntryToEvent(c, ts, org, nodes, log, now);
        case Update => fault := UpdateToEvent(ts, org, nodes, log, now);
      }
      EmitMore(d0, sofar, evs, log, now);
    }

    /** The `doc != null` branch of `file_parsing`: timestamp and
        organisation part, the six categories in their fixed order to the
        day's event log, then the deletion of the source. An exception ends
        the handling where it is thrown. */
    method ProcessDocument(doc: Node, path: string, failure: Option<string>, now: Instant) returns (outcome: Outcome)
      requires fs.Valid()
      modifies fs
      ensures fs.Valid()
      ensures fs.State() == Apply(old(fs.State()), Ingest(path, DocumentEvents(doc), failure, now).effects, now)
      ensures outcome == Ingest(path, DocumentEvents(doc), failure, now).outcome
    {
      var stamps := ElementsByTagName(doc, "Datetime");
      var froms := ElementsByTagName(doc, "edXML:From");
      if stamps == [] || froms == [] {
        HeaderFault(doc, path, failure, now);
        return Crashed(Header(doc).error);
      }
      var ts := InnerText(stamps[0]);
      var org := OrganizationInfo(ChildNodes(froms[0]));
      var log := LogFilePath(EventLogDirectory, now);
      ghost var d0 := fs.State();
      DocumentInOrder(doc, ts, org);
      EmptyConcat([], CategoryIn(doc, Connection, ts, org));
      var fault := NextCategory(Connection, doc, ts, org, log, now, d0, [], None);
      ghost var sofar := CategoryIn(doc, Connection, ts, org);
      fault := NextCategory(Malware, doc, ts, org, log, now, d0, sofar, fault);
      sofar := sofar + CategoryIn(doc, Malware, ts, org);
      fault := NextCategory(OS, doc, ts, org, log, now, d0, sofar, fault);
      sofar := sofar + CategoryIn(doc, OS, ts, org);
      fault := NextCategory(QualityFeature, doc, ts, org, log, now, d0, sofar, fault);
      sofar := sofar + CategoryIn(doc, QualityFeature, ts, org);
      fault := NextCategory(Update, doc, ts, org, log, now, d0, sofar, fault);
      sofar := sofar + CategoryIn(doc, Update, ts, org);
      fault := NextCategory(Vulnerability, doc, ts, org, log, now, d0, sofar, fault);
      sofar := sofar + CategoryIn(doc, Vulnerability, ts, org);
      IngestCases(path, sofar, failure, now);
      if fault.Some? {
        return Crashed(fault.value);
      }
      DeleteFile(path, failure, now);
      ApplyConcat(d0, Writes(log, Emitted(sofar)), Pipeline.DeleteFile(path, failure, now), now);
      return Processed;
    }

    /** `file_parsing`: `first` and `second` are what the loader returns on
        the first and on the second attempt (`None` for a file it could not
        parse). The `goto process_start` is the loop; `count` and `status`
        are the source's counter and process status. */
    method FileParsing(path: string, first: Option<Node>, second: Option<Node>, failure: Option<string>, now: Instant)
      returns (outcome: Outcome)
      requires fs.Valid()
      modifies fs
      ensures fs.Valid()
      ensures fs.State() == Apply(old(fs.State()), HandleArrival(path, first, second, failure, now).effects, now)
      ensures outcome == HandleArrival(path, first, second, failure, now).outcome
    {
      ghost var d0 := fs.State();
      ghost var retry := Report("ERROR", ReloadMessage(path), now);
      ghost var trace: seq<Effect> := [];
      var count := 0;
      var status := 0;
      outcome := Abandoned;
      while true
        invariant 0 <= count <= 1
        invariant fs.Valid() && fs.State() == Apply(d0, trace, now)
        invariant trace == if count == 0 then [] else retry
        invariant count == 1 ==> first.None?
        decreases 1 - count
      {
        var doc := if count == 0 then first else second;
        if doc.Some? {
          ghost var ing := Ingest(path, DocumentEvents(doc.value), failure, now);
          outcome := ProcessDocument(doc.value, path, failure, now);
          ApplyConcat(d0, trace, ing.effects, now);
          trace := trace + ing.effects;
          status := 0;
          break;
        }
        status := 1;
        if count < 1 {
          ReportGeneration("ERROR", ReloadMessage(path), now);
          EmptyConcat(trace, retry);
          trace := retry;
          count := count + 1;
        } else {
          break;
        }
      }
      if outcome.Crashed? {
        ArrivalTrace(path, first, second, failure, now, count, status, outcome, trace);
        return;
      }
      if status == 0 && count == 1 {
        ReportGeneration("INFO", ReparsedMessage(path), now);
        ApplyConcat(d0, trace, Report("INFO", ReparsedMessage(path), now), now);
        trace := trace + Report("INFO", ReparsedMessage(path), now);
      }
      if status == 1 {
        ReportGeneration("ERROR", ReloadFailedMessage(path), now);
        ApplyConcat(d0, trace, Report("ERROR", ReloadFailedMessage(path), now), now);
        trace := trace + Report("ERROR", ReloadFailedMessage(path), now);
      }
      ArrivalTrace(path, first, second, failure, now, count, status, outcome, trace);
    }

    /** `OnTimer`: for the event log directory and then the service log
        directory, list the files once and retire each one found older than
        `RotateTime` seconds; `failures` holds the message of the
        `IOException` for each path whose deletion fails. */
    /** The inner loop of `OnTimer` over one listing: each file whose age
        exceeds `rotate_time` is deleted and logged. */
    method SweepListing(entries: seq<string>, failures: map<string, string>, now: Instant,
                        seconds: DateTime -> int, nowSeconds: int)
      requires fs.Valid() && nowSeconds == seconds(now)
      modifies fs
      ensures fs.Valid()
      ensures fs.State() == SweepPaths(old(fs.State()), entries, failures, now, seconds)
    {
      ghost var start := fs.State();
      var j := 0;
      while j < |entries|
        invariant 0 <= j <= |entries|
        invariant fs.Valid()
        invariant SweepPaths(fs.State(), entries[j..], failures, now, seconds)
               == SweepPaths(start, entries, failures, now, seconds)
      {
        var filePath := entries[j];
        ghost var here := fs.State();
        SweepStep(here, entries, j, failures, now, seconds);
        var fileCreationTime := seconds(CreationTime(fs.State(), filePath));
        if nowSeconds - fileCreationTime > RotateTime {
          DeleteFile(filePath, Lookup(failures, filePath), now);
          ReportGeneration("INFO", RotateMessage(filePath), now);
        }
        j := j + 1;
      }
      assert entries[j..] == [];
    }

    method OnTimer(failures: map<string, string>, now: Instant)
      requires fs.Valid()
      modifies fs
      ensures fs.Valid()
      ensures fs.State() == Sweep(old(fs.State()), failures, now, ToUnixSeconds)
    {
      ghost var d0 := fs.State();
      var directories := [EventLogDirectory, ServiceLogDirectory];
      var seconds: DateTime -> int := ToUnixSeconds;
      var nowSeconds := seconds(now);
      var i := 0;
      while i < |directories|
        invariant 0 <= i <= |directories|
        invariant fs.Valid()
        invariant i == 0 ==> fs.State() == d0
        invariant i == 1 ==> fs.State() == SweepDirectory(d0, EventLogDirectory, failures, now, seconds)
        invariant i == 2 ==> fs.State() == Sweep(d0, failures, now, seconds)
      {
        var entries := fs.GetFiles(directories[i]);
        SweepListing(entries, failures, now, seconds, nowSeconds);
        i := i + 1;
      }
    }
  }

  /** One file of the sweep's inner loop: retired if expired, then the rest. */
  lemma SweepStep(d: Disk, paths: seq<string>, j: int, failures: map<string, string>, now: Instant, seconds: DateTime -> int)
    requires 0 <= j < |paths|
    ensures var p := paths[j];
      var retired := Apply(Apply(d, Pipeline.DeleteFile(p, Lookup(failures, p), now), now), Report("INFO", RotateMessage(p), now), now);
      SweepPaths(d, paths[j..], failures, now, seconds)
        == SweepPaths(if Expired(d, p, now, seconds) then retired else d, paths[j + 1..], failures, now, seconds)
  {
    var p := paths[j];
    assert paths[j..][0] == p && paths[j..][1..] == paths[j + 1..];
    ApplyConcat(d, Pipeline.DeleteFile(p, Lookup(failures, p), now), Report("INFO", RotateMessage(p), now), now);
  }

  /** The effects `file_parsing` produced, attempt by attempt, are those of
      the outcome table. */
  lemma ArrivalTrace(path: string, first: Option<Node>, second: Option<Node>, failure: Option<string>, now: Instant,
                     count: int, status: int, outcome: Outcome, trace: seq<Effect>)
    requires count == 0 || count == 1
    requires count == 1 ==> first.None?
    requires var retry := if count == 0 then [] else Report("ERROR", ReloadMessage(path), now);
      var doc := if count == 0 then first else second;
      if status == 0 then
        && doc.Some?
        && var ing := Ingest(path, DocumentEvents(doc.value), failure, now);
        && outcome == ing.outcome
        && trace == retry + ing.effects + (if count == 1 && !outcome.Crashed? then Report("INFO", ReparsedMessage(path), now) else [])
      else
        && status == 1 && count == 1 && doc.None? && outcome == Abandoned
        && trace == retry + Report("ERROR", ReloadFailedMessage(path), now)
    ensures HandleArrival(path, first, second, failure, now) == Run(trace, outcome)
  {
    var doc := if count == 0 then first else second;
    if status == 0 {
      var ing := Ingest(path, DocumentEvents(doc.value), failure, now);
      IngestNotAbandoned(path, DocumentEvents(doc.value), failure, now);
      if count == 0 {
        EmptyConcat([], ing.effects);
        ConcatEmpty(ing.effects, []);
      } else if outcome.Crashed? {
        ConcatEmpty(Report("ERROR", ReloadMessage(path), now) + ing.effects, []);
      }
    }
  }

  lemma IngestNotAbandoned(path: string, evs: seq<Event>, failure: Option<string>, now: Instant)
    ensures Ingest(path, evs, failure, now).outcome != Abandoned
  {
  }

  /** A report without a `Datetime` or an `edXML:From` element faults before
      any line is written. */
  lemma HeaderFault(doc: Node, path: string, failure: Option<string>, now: Instant)
    requires ElementsByTagName(doc, "Datetime") == [] || ElementsByTagName(doc, "edXML:From") == []
    ensures Header(doc).Err?
    ensures Ingest(path, DocumentEvents(doc), failure, now) == Run([], Crashed(Header(doc).error))
  {
    assert Emitted([Err(Header(doc).error)]) == [];
  }

  /** With the header read, a document's events are those of its six
      categories in the service's order. */
  lemma DocumentInOrder(doc: Node, ts: string, org: string)
    requires ElementsByTagName(doc, "Datetime") != [] && ElementsByTagName(doc, "edXML:From") != []
    requires ts == InnerText(ElementsByTagName(doc, "Datetime")[0])
    requires org == OrgInfo(ChildNodes(ElementsByTagName(doc, "edXML:From")[0]))
    ensures DocumentEvents(doc)
         == CategoryIn(doc, Connection, ts, org) + CategoryIn(doc, Malware, ts, org)
          + CategoryIn(doc, OS, ts, org) + CategoryIn(doc, QualityFeature, ts, org)
          + CategoryIn(doc, Update, ts, org) + CategoryIn(doc, Vulnerability, ts, org)
  {
  }

  lemma IngestCases(path: string, evs: seq<Event>, failure: Option<string>, now: Instant)
    ensures FirstFault(evs).Some? ==> Ingest(path, evs, failure, now) == Run(Writes(EventLog(now), Emitted(evs)), Crashed(FirstFault(evs).value))
    ensures FirstFault(evs).None? ==> Ingest(path, evs, failure, now) == Run(Writes(EventLog(now), Emitted(evs)) + Pipeline.DeleteFile(path, failure, now), Processed)
  {
  }
}
