# EndpointProcessor, modelled in Dafny

EndpointProcessor is a Windows service. It watches a directory
(`C:\\BkavEnterprise\\ReportPy\\BkavReportProcessor_Endpoint\\report_to_soc\\`)
for XML endpoint reports. It flattens each report into one comma-separated
`key:value` line per event and appends those lines, lower-cased, to a daily
event log, `C:\\EndpointProcessor\\EventLog\\yyyy-MM-dd.log`. Then it deletes
the report. If a report cannot be loaded, the service tries once more.
Everything it does is recorded as `[time] [LEVEL] message ` lines in a daily
service log, `C:\\EndpointProcessor\\ServiceLog\\yyyy-MM-dd.log`. Once a
minute a timer deletes the files in both log directories that are more than
seven days (604800 seconds) old.

The model has three layers.

- **Values.** `Xml` is the parsed report as a tree of element and text nodes.
  `Flatten` holds the six `*_to_event` routines as functions from the tree to a
  stream of events, where an event is a line or the exception that stops
  flattening there. `Clock` holds instants, their two print formats and
  `to_unix_timeseconds`. `Text` holds ASCII lower-casing, joining/splitting
  and fixed-width digits.
- **Effects.** `Disk` models the file system as a map from path to (creation
  time, lines) plus the creation order. It also defines an effect, one
  `write_to_file` line or one `File.Delete`, and `Apply`, which runs a
  sequence of effects on a disk. `Pipeline` describes what the service does
  as effects: the file names, the audit lines, `HandleArrival` (the outcome
  table of `file_parsing`) and `Sweep` (what `OnTimer` does). The properties
  of the service are proved there.
- **The service.** `Service.FileSystem` is a class holding the files.
  `Service.EndpointProcessor` is a class whose methods are the source's
  methods, loops included. The dictionary and message loops of the
  `*_to_event` routines live in `Messages`. Every method is proved to leave
  the file system exactly as applying the `Pipeline` effects would. For
  example, `OnTimer` ends in `Sweep(old state)`, about which `RetentionRule`
  states the retention rule.

The loader is an oracle: `first` and `second` are what `load_xml` returns on
the first and the second attempt. A failing `File.Delete` is an oracle too:
the message of the `IOException` it throws, per path. The clock reading
`now` is a parameter, read once per handler call.

## Model

| member | source | states |
|---|---|---|
| `Text.Lower` | EndpointProcessor/EndpointProcessor.cs:395 | `ToLower` on ASCII: each upper-case letter to lower case, every other character kept; its laws are the four `Lower*` lemmas below |
| `Text.LowerLength` | EndpointProcessor/EndpointProcessor.cs:395 | lower-casing keeps the length and maps each character on its own (ASCII letters to lower case) |
| `Text.LowerConcat` | EndpointProcessor/EndpointProcessor.cs:395 | lower-casing distributes over concatenation |
| `Text.LowerIdempotent` | EndpointProcessor/EndpointProcessor.cs:395 | lower-casing a second time changes nothing |
| `Text.LowerKeepsNonLetters` | EndpointProcessor/EndpointProcessor.cs:395 | characters other than upper-case letters, such as `,` and `:`, stay in place |
| `Text.TerminatedConcat` | EndpointProcessor/EndpointProcessor.cs:139-142 | comma-terminating a sequence of items distributes over concatenation |
| `Text.JoinSnoc` | EndpointProcessor/EndpointProcessor.cs:229-234 | joining one more item adds exactly one separator and the item |
| `Text.TerminatedJoin` | EndpointProcessor/EndpointProcessor.cs:213-234 | terminated items followed by a join are the join of all items |
| `Text.SplitJoin` | EndpointProcessor/EndpointProcessor.cs:229-234 | splitting a joined line at the separator gives back the items when none contains it |
| `Text.DigitsRoundTrip` | EndpointProcessor/EndpointProcessor.cs:388 | a zero-padded field of a date format reads back as its number |
| `Clock.DateStamp` | EndpointProcessor/EndpointProcessor.cs:406 | `ToString("yyyy-MM-dd")`: ten characters with `-` at positions 4 and 7; `DateStampInjective` states what it distinguishes |
| `Clock.TimeStamp` | EndpointProcessor/EndpointProcessor.cs:388 | `ToString("yyyy-MM-dd-HH:mm:ss")`: nineteen characters, the date stamp first, then `-`, `:` and `:` at positions 10, 13 and 16 |
| `Clock.ToUnixSeconds` | EndpointProcessor/EndpointProcessor.cs:22-27 | `to_unix_timeseconds`: whole days since 1970-01-01 times 86400 plus the second of the day; `UnixSecondsMonotone`, `EpochSeconds`, `Year2038Seconds` and `UnixSecondsFitInt32` pin it down |
| `Clock.DateStampInjective` | EndpointProcessor/EndpointProcessor.cs:406 | two instants have the same `yyyy-MM-dd` stamp iff they fall on the same day |
| `Clock.TimeStampDetermines` | EndpointProcessor/EndpointProcessor.cs:388 | the audit time stamp begins with the date stamp and equal stamps mean equal instants |
| `Clock.UnixSecondsMonotone` | EndpointProcessor/EndpointProcessor.cs:22-27 | an earlier instant has fewer seconds since 1970 |
| `Clock.EpochSeconds` | EndpointProcessor/EndpointProcessor.cs:24-26 | 1970-01-01 00:00:00 is second 0 |
| `Clock.Year2038Seconds` | EndpointProcessor/EndpointProcessor.cs:22-27 | 2038-01-01 00:00:00 is second 2145916800 |
| `Clock.UnixSecondsFitInt32` | EndpointProcessor/EndpointProcessor.cs:26 | instants from 1970 through 2037 convert to a value in range of the source's `int` |
| `Xml.InnerText` | EndpointProcessor/EndpointProcessor.cs:134 | `XmlNode.InnerText`: the text of all descendant text nodes in document order, the value of every field taken from a child node |
| `Xml.ElementsByTagName` | EndpointProcessor/EndpointProcessor.cs:193-204 | every node found for a tag is an element with that name |
| `Xml.FirstMatchIsOutermost` | EndpointProcessor/EndpointProcessor.cs:193-204 | a document element carrying the tag is the first node found |
| `Xml.DirectChildFound` | EndpointProcessor/EndpointProcessor.cs:193-204 | a direct child carrying the tag is among the nodes found |
| `Flatten.FirstDuplicate` | EndpointProcessor/EndpointProcessor.cs:217-226 | the key of the first `event_info.Add` that throws; `FirstDuplicateIff` states that it is absent iff the keys are distinct |
| `Flatten.OrgInfo` | EndpointProcessor/EndpointProcessor.cs:137-142 | the organisation part of every line, one `Name:InnerText,` per child of `edXML:From`; `Messages.OrganizationInfo` is the loop proved to compute it |
| `Flatten.Header` | EndpointProcessor/EndpointProcessor.cs:134-142 | the timestamp and organisation part, or the fault of a missing `Datetime` or `edXML:From`; `Service.HeaderFault` states that this fault comes before any line |
| `Flatten.EventLine` | EndpointProcessor/EndpointProcessor.cs:212-235 | one event of a section: the prefix and the fields, or the duplicate key; `EventLineSpec` states both cases |
| `Flatten.DetailEvents` | EndpointProcessor/EndpointProcessor.cs:205-238 | connection, malware and vulnerability: one event per (entry, detail) pair; `DetailEventsCount` and `DetailEventsAt` state its length and each element |
| `Flatten.EntryEvents` | EndpointProcessor/EndpointProcessor.cs:274-305 | os and qualityfeature: one event per entry, a fault for a text entry; `EntryEventsShape` states each element |
| `Flatten.UpdateEvents` | EndpointProcessor/EndpointProcessor.cs:338-349 | update: one line per entry from its name and text; `UpdateIgnoresAttributes` states each element |
| `Flatten.CategoryEvents` | EndpointProcessor/EndpointProcessor.cs:205-384 | a category from the node list found for its tag: only the first node is read, and an empty list faults before any line |
| `Flatten.DocumentEvents` | EndpointProcessor/EndpointProcessor.cs:128-153 | the events of a document, the header first, then the six categories in the service order; `DocumentLinesInOrder` and `Service.DocumentInOrder` state the order |
| `Flatten.FirstDuplicateIff` | EndpointProcessor/EndpointProcessor.cs:217-226 | adding the fields one by one to the dictionary throws iff some key repeats |
| `Flatten.EventLineSpec` | EndpointProcessor/EndpointProcessor.cs:212-234 | an event line exists iff its keys are distinct; it is then the prefix and the fields joined by commas |
| `Flatten.StreamConcat` | EndpointProcessor/EndpointProcessor.cs:148-153 | after a fault-free stretch the stream continues; after a fault nothing more is written |
| `Flatten.EmittedAll` | EndpointProcessor/EndpointProcessor.cs:148-153 | without a fault every event is written, one line each, in order |
| `Flatten.DetailEventsConcat` | EndpointProcessor/EndpointProcessor.cs:208-237 | the events of two runs of entries are the events of each, in order |
| `Flatten.DetailPairsConcat` | EndpointProcessor/EndpointProcessor.cs:208-210 | the (entry, detail) pairs of two runs of entries add up |
| `Flatten.DetailEventsCount` | EndpointProcessor/EndpointProcessor.cs:207-237 | connection, malware and vulnerability give one event per (entry, detail) pair |
| `Flatten.DetailEventsAt` | EndpointProcessor/EndpointProcessor.cs:207-237 | those events come in document order, each carrying its entry's attributes and its detail's children |
| `Flatten.DetailEventsIndex` | EndpointProcessor/EndpointProcessor.cs:207-237 | event number (pairs before entry `i`) + `k` is the event of detail `k` of entry `i` |
| `Flatten.DetailLinesPrefixed` | EndpointProcessor/EndpointProcessor.cs:213-215 | every detail line starts with its prefix |
| `Flatten.LinesPrefixed` | EndpointProcessor/EndpointProcessor.cs:213-215 | every line of a category starts with `@timestamp:<ts>,<org>category:<name>,` |
| `Flatten.EntryEventsShape` | EndpointProcessor/EndpointProcessor.cs:276-304 | os and qualityfeature give one event per entry; a text entry faults |
| `Flatten.UpdateIgnoresAttributes` | EndpointProcessor/EndpointProcessor.cs:340-348 | update lines depend only on each entry's name and text, never fault, and carry no attributes |
| `Flatten.UpdateNeverFaults` | EndpointProcessor/EndpointProcessor.cs:340-348 | a stream of lines alone has no fault |
| `Flatten.PrefixTerminated` | EndpointProcessor/EndpointProcessor.cs:134-142 | the prefix is the timestamp, header and category pairs, each followed by a comma |
| `Flatten.RecordKvs` | EndpointProcessor/EndpointProcessor.cs:213-234 | a record's pairs are the timestamp, the header fields, the category, then the entry's fields |
| `Flatten.RecordLine` | EndpointProcessor/EndpointProcessor.cs:213-234 | a line is the record's pairs joined by commas, with a trailing comma only when the entry has no field |
| `Flatten.RecordRoundTrip` | EndpointProcessor/EndpointProcessor.cs:213-234 | splitting a line at its commas gives back the record's pairs when no key or value holds a comma |
| `Flatten.DocumentLinesInOrder` | EndpointProcessor/EndpointProcessor.cs:148-153 | a document's lines are those of connection, malware, os, qualityfeature, update, vulnerability, in that order |
| `Disk.Append` | EndpointProcessor/EndpointProcessor.cs:393-396 | `File.AppendText` and `WriteLine`; `AppendSpec` states its effect on every file |
| `Disk.Remove` | EndpointProcessor/EndpointProcessor.cs:401 | `File.Delete`; `RemoveSpec` states that exactly that path goes |
| `Disk.Listing` | EndpointProcessor/EndpointProcessor.cs:38 | `Directory.GetFiles` over the creation order; `ListingSpec` states which paths it holds |
| `Disk.Apply` | EndpointProcessor/EndpointProcessor.cs:391-403 | runs a sequence of writes and deletions on a disk; `ApplyConcat`, `ApplyWf` and `ApplyUntouched` state its laws |
| `Disk.AppendSpec` | EndpointProcessor/EndpointProcessor.cs:393-396 | appending adds the line at the end of the target, creates it stamped `now` if missing, and changes no other file |
| `Disk.RemoveSpec` | EndpointProcessor/EndpointProcessor.cs:401 | deleting removes exactly that path |
| `Disk.ListingSpec` | EndpointProcessor/EndpointProcessor.cs:38 | a listing holds each file of the directory once and nothing else |
| `Disk.ListingConcat` | EndpointProcessor/EndpointProcessor.cs:38 | listing is stable under appending to the creation order |
| `Disk.ListingWithout` | EndpointProcessor/EndpointProcessor.cs:38 | deleting a file of another directory leaves a listing as it was |
| `Disk.ApplyConcat` | EndpointProcessor/EndpointProcessor.cs:391-403 | running two batches of effects is running their concatenation |
| `Disk.WritesAppendInOrder` | EndpointProcessor/EndpointProcessor.cs:391-398 | a batch of writes appends the lines, lower-cased and in order, and touches no other file |
| `Disk.ApplyWf` | EndpointProcessor/EndpointProcessor.cs:391-403 | any run of effects keeps the disk well formed |
| `Disk.ApplyUntouched` | EndpointProcessor/EndpointProcessor.cs:391-403 | effects that never name a path leave that file as it was |
| `Disk.ListingAfterLog` | EndpointProcessor/EndpointProcessor.cs:38-46 | writing one log and deleting outside a directory changes that directory's listing at most by the log joining its end |
| `Pipeline.LogFilePath` | EndpointProcessor/EndpointProcessor.cs:404-408 | `file_path_generation`: the directory, the date stamp and `.log`; `LogFilePerDay` and `LogFilesApart` state which instants and directories share a file |
| `Pipeline.AuditLine` | EndpointProcessor/EndpointProcessor.cs:385-390 | `report_generation`'s line: the time stamp in brackets, the level in brackets, the content and a trailing space; `ReportShape` states where it goes |
| `Pipeline.LogFilePerDay` | EndpointProcessor/EndpointProcessor.cs:404-408 | within a directory two instants share a log file iff they fall on the same day |
| `Pipeline.LogFilesApart` | EndpointProcessor/EndpointProcessor.cs:13-15 | the event log and the service log never share a file, and an arrived report is neither |
| `Pipeline.Ingest` | EndpointProcessor/EndpointProcessor.cs:145-159 | a loaded document: its lines up to the first fault, then, if none, the deletion; `IngestShape` states the shape |
| `Pipeline.HandleArrival` | EndpointProcessor/EndpointProcessor.cs:118-184 | the outcome table of `file_parsing` given the two load answers; the four lemmas below and `DeleteOnlyAfterLoad` state its cases |
| `Pipeline.FirstLoadSucceeds` | EndpointProcessor/EndpointProcessor.cs:125-160 | a first load that works: the lines, the deletion, no audit line from the retry logic |
| `Pipeline.RetrySucceeds` | EndpointProcessor/EndpointProcessor.cs:161-178 | a failed load then a good one: one "reload it again" ERROR line, the lines, the deletion, one "Reparsing successful" INFO line |
| `Pipeline.FaultStopsHandling` | EndpointProcessor/EndpointProcessor.cs:128-159 | a fault on either attempt: the lines before it, then nothing; no deletion, no success line |
| `Pipeline.RetryFails` | EndpointProcessor/EndpointProcessor.cs:161-183 | two failed loads: the two ERROR lines and nothing else |
| `Pipeline.ReportShape` | EndpointProcessor/EndpointProcessor.cs:385-390 | an audit report writes only to the day's service log |
| `Pipeline.IngestShape` | EndpointProcessor/EndpointProcessor.cs:145-159 | a loaded document deletes its source at most once, as its last step, iff flattening went through and the deletion did not throw |
| `Pipeline.ShapeBetweenAuditLines` | EndpointProcessor/EndpointProcessor.cs:166-183 | audit lines around such a run keep that shape |
| `Pipeline.DeleteOnlyAfterLoad` | EndpointProcessor/EndpointProcessor.cs:118-184 | the source is deleted iff a load succeeded, the document was flattened and the deletion did not throw; only audit lines follow; abandoned iff both loads failed |
| `Pipeline.ShapedRunOnDisk` | EndpointProcessor/EndpointProcessor.cs:118-184 | on the disk, a run of that shape removes the source iff it deletes it and otherwise leaves it untouched |
| `Pipeline.SourceAfterArrival` | EndpointProcessor/EndpointProcessor.cs:118-184 | after an arrival, a processed source whose deletion worked is gone; an unprocessed one is exactly as it was |
| `Pipeline.Expired` | EndpointProcessor/EndpointProcessor.cs:41-42 | the retention test `now - creation > 604800`, strict; `ExpiringMembers` states it over a listing |
| `Pipeline.SweepPaths` | EndpointProcessor/EndpointProcessor.cs:39-48 | the inner loop over one listing; `SweepPathsSpec` states what it retires and keeps |
| `Pipeline.SweepDirectory` | EndpointProcessor/EndpointProcessor.cs:35-48 | one pass of the outer loop: the directory listed once, then swept |
| `Pipeline.Sweep` | EndpointProcessor/EndpointProcessor.cs:28-50 | `OnTimer`: the event log directory, then the service log directory; `RetentionRule` and `RetentionRuleByFile` state its result |
| `Pipeline.CreatedNowIsFresh` | EndpointProcessor/EndpointProcessor.cs:41-42 | a service log the sweep itself creates is not expired |
| `Pipeline.RetireOne` | EndpointProcessor/EndpointProcessor.cs:44-46 | retiring a file removes it unless its deletion fails, and appends its audit lines (an ERROR first if the deletion failed, then the INFO line) |
| `Pipeline.RetireFailing` | EndpointProcessor/EndpointProcessor.cs:399-403 | a failing deletion keeps the file and logs an ERROR line before the INFO line |
| `Pipeline.RetireDeleting` | EndpointProcessor/EndpointProcessor.cs:399-403 | a deletion that works removes the file and logs the INFO line |
| `Pipeline.RetireLinesConcat` | EndpointProcessor/EndpointProcessor.cs:39-48 | the audit lines of two runs of retirements are the lines of each, in order |
| `Pipeline.RetiredCompose` | EndpointProcessor/EndpointProcessor.cs:39-48 | retiring one run of files then another retires both |
| `Pipeline.AuditCompose` | EndpointProcessor/EndpointProcessor.cs:39-48 | the service log growing twice grows by both batches |
| `Pipeline.SweepPathsSpec` | EndpointProcessor/EndpointProcessor.cs:39-48 | one listing swept: exactly its expired files are retired, in listing order, and nothing else changes |
| `Pipeline.SweepRest` | EndpointProcessor/EndpointProcessor.cs:39-48 | after the first file's step, the rest of the listing is swept the same way |
| `Pipeline.ExpiringAgrees` | EndpointProcessor/EndpointProcessor.cs:41-42 | disks that agree on creation times find the same files expired |
| `Pipeline.DirectoriesApart` | EndpointProcessor/EndpointProcessor.cs:14-15 | no file is in both log directories, and today's service log is not in the event log directory |
| `Pipeline.SweepPathsListing` | EndpointProcessor/EndpointProcessor.cs:35-48 | sweeping one directory leaves the other's listing as it was, but for today's service log joining it |
| `Pipeline.ExpiringConcat` | EndpointProcessor/EndpointProcessor.cs:39-42 | the expired files of two listings are those of each, in order |
| `Pipeline.ExpiringMembers` | EndpointProcessor/EndpointProcessor.cs:41-42 | a file is expiring iff it is listed and `now - creation > 604800` |
| `Pipeline.ListingOfDisk` | EndpointProcessor/EndpointProcessor.cs:38 | a listing holds only files of the disk, each once |
| `Pipeline.SecondPassSees` | EndpointProcessor/EndpointProcessor.cs:35-38 | the second pass retires what a pass over the original listing would have |
| `Pipeline.RetentionRule` | EndpointProcessor/EndpointProcessor.cs:28-50 | a tick retires exactly the expired files of the two directories, keeping those whose deletion fails, changes no other file, and logs one INFO line per retired file in listing order |
| `Pipeline.RetentionRuleByFile` | EndpointProcessor/EndpointProcessor.cs:16-48 | a file survives a tick iff it existed and is not an expired log file whose deletion succeeded |
| `Messages.OrganizationInfo` | EndpointProcessor/EndpointProcessor.cs:137-142 | the header loop builds one `Name:InnerText,` per child of `edXML:From` |
| `Messages.FirstDuplicateExtends` | EndpointProcessor/EndpointProcessor.cs:217-226 | once a key repeats, adding more fields does not change which key threw |
| `Messages.AddFields` | EndpointProcessor/EndpointProcessor.cs:217-226 | the `Add` loops fill the dictionary in insertion order or throw at the first repeated key |
| `Messages.RenderMessage` | EndpointProcessor/EndpointProcessor.cs:229-234 | the message loop writes the fields joined by commas, with no trailing comma |
| `Messages.EventMessage` | EndpointProcessor/EndpointProcessor.cs:212-234 | one event: the line for the attributes and the children, or the duplicate key |
| `Service.FileSystem.AppendLine` | EndpointProcessor/EndpointProcessor.cs:393-396 | `File.AppendText` and `WriteLine` on the in-memory files |
| `Service.FileSystem.Delete` | EndpointProcessor/EndpointProcessor.cs:401 | `File.Delete` on the in-memory files |
| `Service.FileSystem.GetFiles` | EndpointProcessor/EndpointProcessor.cs:38 | the listing loop returns each file of the directory once, in creation order |
| `Service.EndpointProcessor.WriteToFile` | EndpointProcessor/EndpointProcessor.cs:391-398 | exactly one line, lower-cased, at the end of the file; every other file unchanged |
| `Service.EndpointProcessor.ReportGeneration` | EndpointProcessor/EndpointProcessor.cs:385-390 | the audit line goes to the day's service log |
| `Service.EndpointProcessor.DeleteFile` | EndpointProcessor/EndpointProcessor.cs:399-403 | the deletion, or an ERROR line with the exception's message |
| `Service.EndpointProcessor.WriteEvent` | EndpointProcessor/EndpointProcessor.cs:235 | an event's line is written, or its exception propagates and nothing is |
| `Service.EndpointProcessor.DetailToEvent` | EndpointProcessor/EndpointProcessor.cs:205-238 | the nested loops write the category's events up to the first fault, which they return |
| `Service.EndpointProcessor.EntryToEvent` | EndpointProcessor/EndpointProcessor.cs:274-305 | the entry loop writes the os or qualityfeature events up to the first fault |
| `Service.EndpointProcessor.UpdateToEvent` | EndpointProcessor/EndpointProcessor.cs:338-349 | the update loop writes one line per entry |
| `Service.EndpointProcessor.NextCategory` | EndpointProcessor/EndpointProcessor.cs:148-153 | one more category extends the written stream, unless an earlier one threw |
| `Service.EndpointProcessor.ProcessDocument` | EndpointProcessor/EndpointProcessor.cs:128-160 | a loaded document: the categories' lines in order, then the deletion; an exception ends it |
| `Service.EndpointProcessor.FileParsing` | EndpointProcessor/EndpointProcessor.cs:118-184 | the `goto` retry loop leaves the files and returns the outcome of the outcome table |
| `Service.EndpointProcessor.SweepListing` | EndpointProcessor/EndpointProcessor.cs:39-48 | the inner loop leaves the files as sweeping that listing does: each expired file deleted (unless the deletion fails) and logged |
| `Service.EndpointProcessor.OnTimer` | EndpointProcessor/EndpointProcessor.cs:28-50 | the outer loop lists each directory once and leaves the files as the sweep of both directories does |
| `Service.ArrivalTrace` | EndpointProcessor/EndpointProcessor.cs:166-183 | the effects of the attempts, as the counter and status record them, are those of the outcome table |
| `Service.HeaderFault` | EndpointProcessor/EndpointProcessor.cs:134-137 | a report without `Datetime` or `edXML:From` faults before any line is written |
| `Service.DocumentInOrder` | EndpointProcessor/EndpointProcessor.cs:148-153 | once the header is read, a document's events are its six categories' in order |
| `Service.SweepStep` | EndpointProcessor/EndpointProcessor.cs:39-47 | one file of the inner loop: `delete_file` and the INFO line if expired, then the rest |

## Left out

- `Program.cs`, `OnStart`, `OnStop` and the creation of the log directories are host plumbing, so they are not modelled.
- The `FileSystemWatcher` set-up and `OnError` are not modelled: they are operating-system notification. A file-created event is a call of `FileParsing` with the file's path.
- `XmlDocument.Load` is the loader oracle. The tree has only element and text nodes, so comments, CDATA and processing instructions are not modelled.
- `GetElementsByTagName` is modelled by `Xml.ElementsByTagName`: a pre-order search that includes the document element. The `get_elements` dictionary is read directly.
- `Text.Lower`: `String.ToLower` is culture-sensitive. The model lower-cases ASCII letters only.
- `Clock.DateStamp`, `Clock.TimeStamp`: the invariant Gregorian rendering with `:` is modelled. Other cultures' calendars and time separators are not, so `Pipeline.LogFilePerDay` and `Clock.TimeStampDetermines` hold for that rendering only.
- `Clock.ToUnixSeconds`: the source converts through a `double` (`TotalSeconds`) and casts to a 32-bit `int`. The model is exact integer arithmetic. `UnixSecondsFitInt32` shows the cast loses nothing for 1970 through 2037. Instants after 2038-01-19 03:14:07, where the cast's result is unspecified, and creation times before 1970 are not modelled.
- The source reads `DateTime.Now` anew in `report_generation` and in each `file_path_generation` call. The model reads the clock once per handler call, so a call that straddles midnight is not modelled.
- `Directory.GetFiles` returns its paths in creation order in the model. The operating system leaves that order unspecified.
- The enumeration order of `event_info` is its insertion order. This holds for a `Dictionary` that is only ever added to.
- `delete_file` failures are only the `IOException` whose message the oracle supplies. Exceptions of other types and failures of `File.AppendText` are not modelled.
- The timer thread and the watcher callbacks run concurrently in the source. The model covers each handler run alone. In the source an exception escaping the watcher callback is unhandled on a runtime thread, which stops the service. The model's `Crashed` outcome ends only that run, and the arrivals and timer ticks that would then never happen are not modelled.
- `Service.EndpointProcessor.WriteToFile`: a file is modelled as the sequence of its `WriteLine` calls. An `InnerText` holding a line break makes one call several physical lines of the file. So `Flatten.EmittedAll` and `Disk.WritesAppendInOrder` count calls, not lines of the file, and `Flatten.RecordRoundTrip` does not apply to such a line read back from disk.
- Paths are compared as exact strings. Windows compares them case-insensitively and treats `/` and `\` alike. The two agree for the paths the service builds itself, but a watcher path spelled differently is not modelled.
- `Pipeline.RetentionRule`, `Pipeline.SweepPathsSpec` and `Pipeline.RetentionRuleByFile` require that today's service log is not itself more than seven days old (`FreshAudit`). That holds whenever the clock does not run backwards. `Service.EndpointProcessor.OnTimer` carries no such requirement.
- `Pipeline.RetentionRule` and the sweep lemmas hold for any conversion of instants to seconds. `OnTimer` uses `ToUnixSeconds`.
