/** How one parsed report becomes flat event lines: the six `*_to_event`
    routines of the service as functions from the tree to a stream of events.
    An event is a line, or the fault (an exception in the service) that stops
    the flattening at that point. */
module Flatten {
  import opened Base
  import opened Text
  import opened Xml

  datatype Category = Connection | Malware | OS | QualityFeature | Update | Vulnerability

  /** The element whose first occurrence holds the category's entries. */
  function Tag(c: Category): string
  {
    match c
    case Connection => "Connection"
    case Malware => "Malware"
    case OS => "OS"
    case QualityFeature => "QualityFeature"
    case Update => "Update"
    case Vulnerability => "Vulnerability"
  }

  /** The value written after `category:`. */
  function Label(c: Category): string
  {
    match c
    case Connection => "connection"
    case Malware => "malware"
    case OS => "os"
    case QualityFeature => "qualityfeature"
    case Update => "update"
    case Vulnerability => "vulnerability"
  }

  /** The exceptions that abort flattening: indexing `[0]` of an empty node
      list (a null node), `Dictionary.Add` of a key already present, and
      `Attributes.Count` on a text node (whose attribute collection is null). */
  datatype Fault = MissingElement(tag: string) | DuplicateKey(key: string) | NullAttributes

  type Field = (string, string)

  type Event = Result<string, Fault>

  function Kv(f: Field): string
  {
    f.0 + ":" + f.1
  }

  function Kvs(fs: seq<Field>): (r: seq<string>)
    ensures |r| == |fs|
  {
    seq(|fs|, k requires 0 <= k < |fs| => Kv(fs[k]))
  }

  lemma KvsConcat(a: seq<Field>, b: seq<Field>)
    ensures Kvs(a + b) == Kvs(a) + Kvs(b)
  {
    assert forall k :: 0 <= k < |a + b| ==> Kvs(a + b)[k] == (Kvs(a) + Kvs(b))[k];
  }

  /** An entry's attributes as (Name, Value) fields. */
  function AttrFields(attrs: seq<Attr>): (r: seq<Field>)
    ensures |r| == |attrs|
  {
    seq(|attrs|, k requires 0 <= k < |attrs| => (attrs[k].name, attrs[k].value))
  }

  /** Child nodes as (Name, InnerText) fields. */
  function ChildFields(ns: seq<Node>): (r: seq<Field>)
    ensures |r| == |ns|
  {
    seq(|ns|, k requires 0 <= k < |ns| => (Name(ns[k]), InnerText(ns[k])))
  }

  predicate DistinctKeys(fs: seq<Field>)
  {
    forall i, j :: 0 <= i < j < |fs| ==> fs[i].0 != fs[j].0
  }

  function KeysOf(fs: seq<Field>): set<string>
  {
    set k | 0 <= k < |fs| :: fs[k].0
  }

  /** The key of the first `Dictionary.Add` that throws when the fields are
      added one after another to an empty dictionary. */
  function FirstDuplicate(fs: seq<Field>): Option<string>
  {
    if fs == [] then None
    else
      var init, last := fs[..|fs| - 1], fs[|fs| - 1];
      match FirstDuplicate(init)
      case Some(k) => Some(k)
      case None => if last.0 in KeysOf(init) then Some(last.0) else None
  }

  /** Adding the fields in order succeeds exactly when no key repeats. */
  lemma {:induction false} FirstDuplicateIff(fs: seq<Field>)
    ensures FirstDuplicate(fs).None? <==> DistinctKeys(fs)
  {
    if fs != [] {
      var init, last := fs[..|fs| - 1], fs[|fs| - 1];
      FirstDuplicateIff(init);
      if DistinctKeys(fs) {
        assert DistinctKeys(init) by {
          forall i, j | 0 <= i < j < |init| ensures init[i].0 != init[j].0 {
            assert init[i] == fs[i] && init[j] == fs[j];
          }
        }
        forall k | 0 <= k < |init| ensures init[k].0 != last.0 {
          assert init[k] == fs[k];
        }
      } else if FirstDuplicate(init).None? {
        var i, j :| 0 <= i < j < |fs| && fs[i].0 == fs[j].0;
        if j < |fs| - 1 {
          assert false;
        }
        assert init[i] == fs[i];
        assert init[i].0 in KeysOf(init);
      }
    }
  }

  /** The organisation part of every line: `Name:InnerText,` for each child of
      the first `edXML:From` element. */
  function OrgInfo(header: seq<Node>): string
  {
    Terminated(Kvs(ChildFields(header)), ',')
  }

  /** `@timestamp:<ts>,<org>category:<kind>,` */
  function Prefix(ts: string, org: string, kind: string): string
  {
    "@timestamp:" + ts + "," + org + "category:" + kind + ","
  }

  /** One event line: the prefix, then the fields as `key:value` joined by
      commas (the dictionary's insertion order), or the first duplicate key. */
  function EventLine(prefix: string, fields: seq<Field>): Event
  {
    match FirstDuplicate(fields)
    case Some(k) => Err(DuplicateKey(k))
    case None => Ok(prefix + Join(Kvs(fields), ','))
  }

  /** An event line succeeds exactly when its keys are distinct, and then it is
      the prefix followed by the joined fields. */
  lemma EventLineSpec(prefix: string, fields: seq<Field>)
    ensures EventLine(prefix, fields).Ok? <==> DistinctKeys(fields)
    ensures EventLine(prefix, fields).Ok? ==> EventLine(prefix, fields).value == prefix + Join(Kvs(fields), ',')
  {
    FirstDuplicateIff(fields);
  }

  // ------------------------------------------------ the three section shapes

  /** Connection, Malware, Vulnerability: one event per detail child of the
      entry, with the entry's attributes and the detail's children. A text
      entry has no children and so yields nothing. */
  function PairEvents(prefix: string, entry: Node): seq<Event>
  {
    match entry
    case Text(_) => []
    case Element(_, attrs, details) =>
      seq(|details|, k requires 0 <= k < |details| =>
        EventLine(prefix, AttrFields(attrs) + ChildFields(ChildNodes(details[k]))))
  }

  function DetailEvents(prefix: string, entries: seq<Node>): seq<Event>
  {
    if entries == [] then [] else PairEvents(prefix, entries[0]) + DetailEvents(prefix, entries[1..])
  }

  /** The number of (entry, detail) pairs. */
  function DetailPairs(entries: seq<Node>): nat
  {
    if entries == [] then 0 else |ChildNodes(entries[0])| + DetailPairs(entries[1..])
  }

  /** OS, QualityFeature: one event per entry, with its attributes and its
      children; a text entry has null attributes and faults. */
  function EntryEvent(prefix: string, entry: Node): Event
  {
    match entry
    case Text(_) => Err(NullAttributes)
    case Element(_, attrs, children) => EventLine(prefix, AttrFields(attrs) + ChildFields(children))
  }

  function EntryEvents(prefix: string, entries: seq<Node>): (r: seq<Event>)
    ensures |r| == |entries|
  {
    seq(|entries|, k requires 0 <= k < |entries| => EntryEvent(prefix, entries[k]))
  }

  /** Update: one event per entry, its own Name and InnerText only. */
  function UpdateEvents(prefix: string, entries: seq<Node>): (r: seq<Event>)
    ensures |r| == |entries|
  {
    seq(|entries|, k requires 0 <= k < |entries| => Ok(prefix + Kv((Name(entries[k]), InnerText(entries[k])))))
  }

  /** The events of one section node. */
  function SectionEvents(c: Category, ts: string, org: string, section: Node): seq<Event>
  {
    var prefix := Prefix(ts, org, Label(c));
    var entries := ChildNodes(section);
    match c
    case Connection => DetailEvents(prefix, entries)
    case Malware => DetailEvents(prefix, entries)
    case Vulnerability => DetailEvents(prefix, entries)
    case OS => EntryEvents(prefix, entries)
    case QualityFeature => EntryEvents(prefix, entries)
    case Update => UpdateEvents(prefix, entries)
  }

  /** A category given the node list `GetElementsByTagName` found for it:
      only the first node is read, and an empty list faults before any line. */
  function CategoryEvents(c: Category, ts: string, org: string, nodes: seq<Node>): seq<Event>
  {
    if nodes == [] then [Err(MissingElement(Tag(c)))] else SectionEvents(c, ts, org, nodes[0])
  }

  function CategoryIn(doc: Node, c: Category, ts: string, org: string): seq<Event>
  {
    CategoryEvents(c, ts, org, ElementsByTagName(doc, Tag(c)))
  }

  /** The timestamp (first `Datetime`'s text) and organisation part (children
      of the first `edXML:From`), or the fault of a missing element. */
  function Header(doc: Node): Result<(string, string), Fault>
  {
    var stamps := ElementsByTagName(doc, "Datetime");
    var froms := ElementsByTagName(doc, "edXML:From");
    if stamps == [] then Err(MissingElement("Datetime"))
    else if froms == [] then Err(MissingElement("edXML:From"))
    else Ok((InnerText(stamps[0]), OrgInfo(ChildNodes(froms[0]))))
  }

  /** All events of a document, categories in the service's fixed order. */
  function DocumentEvents(doc: Node): seq<Event>
  {
    match Header(doc)
    case Err(f) => [Err(f)]
    case Ok((ts, org)) =>
      CategoryIn(doc, Connection, ts, org) + CategoryIn(doc, Malware, ts, org)
      + CategoryIn(doc, OS, ts, org) + CategoryIn(doc, QualityFeature, ts, org)
      + CategoryIn(doc, Update, ts, org) + CategoryIn(doc, Vulnerability, ts, org)
  }

  // ------------------------------------------------------ the event stream

  /** The lines actually written: those before the first fault. */
  function Emitted(evs: seq<Event>): seq<string>
  {
    if evs == [] then []
    else match evs[0]
      case Ok(line) => [line] + Emitted(evs[1..])
      case Err(_) => []
  }

  function FirstFault(evs: seq<Event>): Option<Fault>
  {
    if evs == [] then None
    else match evs[0]
      case Ok(_) => FirstFault(evs[1..])
      case Err(f) => Some(f)
  }

  /** After a fault-free stretch the stream goes on; after a fault it has stopped. */
  lemma {:induction false} StreamConcat(xs: seq<Event>, ys: seq<Event>)
    ensures FirstFault(xs).None? ==> Emitted(xs + ys) == Emitted(xs) + Emitted(ys) && FirstFault(xs + ys) == FirstFault(ys)
    ensures FirstFault(xs).Some? ==> Emitted(xs + ys) == Emitted(xs) && FirstFault(xs + ys) == FirstFault(xs)
  {
    if xs != [] {
      assert (xs + ys)[0] == xs[0];
      assert (xs + ys)[1..] == xs[1..] + ys;
      StreamConcat(xs[1..], ys);
    } else {
      assert xs + ys == ys;
    }
  }

  /** Without a fault every event is written, one line each, in order. */
  lemma {:induction false} EmittedAll(evs: seq<Event>)
    requires FirstFault(evs).None?
    ensures |Emitted(evs)| == |evs|
    ensures forall k :: 0 <= k < |evs| ==> evs[k].Ok? && Emitted(evs)[k] == evs[k].value
  {
    if evs != [] {
      EmittedAll(evs[1..]);
    }
  }

  // ------------------------------------------------------------ properties

  lemma {:induction false} DetailEventsConcat(prefix: string, a: seq<Node>, b: seq<Node>)
    ensures DetailEvents(prefix, a + b) == DetailEvents(prefix, a) + DetailEvents(prefix, b)
  {
    if a == [] {
      assert a + b == b;
    } else {
      assert (a + b)[0] == a[0];
      assert (a + b)[1..] == a[1..] + b;
      DetailEventsConcat(prefix, a[1..], b);
    }
  }

  lemma {:induction false} DetailPairsConcat(a: seq<Node>, b: seq<Node>)
    ensures DetailPairs(a + b) == DetailPairs(a) + DetailPairs(b)
  {
    if a == [] {
      assert a + b == b;
    } else {
      assert (a + b)[0] == a[0];
      assert (a + b)[1..] == a[1..] + b;
      DetailPairsConcat(a[1..], b);
    }
  }

  /** Connection, Malware and Vulnerability give exactly one event per
      (entry, detail) pair. */
  lemma {:induction false} DetailEventsCount(prefix: string, entries: seq<Node>)
    ensures |DetailEvents(prefix, entries)| == DetailPairs(entries)
  {
    if entries != [] {
      DetailEventsCount(prefix, entries[1..]);
    }
  }

  /** ... and the pairs come in document order: detail `k` of entry `i` is
      event number (pairs of the entries before `i`) + `k`, carrying entry
      `i`'s attributes and the children of that detail. */
  lemma DetailEventsAt(prefix: string, entries: seq<Node>, i: int, k: int)
    requires 0 <= i < |entries| && entries[i].Element? && 0 <= k < |entries[i].children|
    ensures DetailPairs(entries[..i]) + k < |DetailEvents(prefix, entries)|
    ensures DetailEvents(prefix, entries)[DetailPairs(entries[..i]) + k]
         == EventLine(prefix, AttrFields(entries[i].attrs) + ChildFields(ChildNodes(entries[i].children[k])))
  {
    DetailEventsIndex(prefix, entries, i, k);
    PairEventsShape(prefix, entries[i]);
  }

  /** Event number (pairs before entry `i`) + `k` is event `k` of entry `i`. */
  lemma {:induction false} DetailEventsIndex(prefix: string, entries: seq<Node>, i: int, k: int)
    requires 0 <= i < |entries| && 0 <= k < |ChildNodes(entries[i])|
    ensures DetailPairs(entries[..i]) + k < |DetailEvents(prefix, entries)|
    ensures DetailEvents(prefix, entries)[DetailPairs(entries[..i]) + k] == PairEvents(prefix, entries[i])[k]
  {
    var head, rest := PairEvents(prefix, entries[0]), DetailEvents(prefix, entries[1..]);
    assert DetailEvents(prefix, entries) == head + rest;
    PairEventsShape(prefix, entries[0]);
    DetailEventsCount(prefix, entries[1..]);
    var n := DetailPairs(entries[..i]) + k;
    if i == 0 {
      assert DetailPairs(entries[..i]) == 0;
      IndexConcat(head, rest, n);
    } else {
      var tail := entries[1..];
      assert tail[i - 1] == entries[i];
      DetailPairsCons(entries, i);
      DetailEventsIndex(prefix, tail, i - 1, k);
      IndexConcat(head, rest, n);
    }
  }

  lemma PairEventsShape(prefix: string, entry: Node)
    ensures |PairEvents(prefix, entry)| == |ChildNodes(entry)|
    ensures entry.Element? ==> forall k :: 0 <= k < |entry.children| ==>
      PairEvents(prefix, entry)[k] == EventLine(prefix, AttrFields(entry.attrs) + ChildFields(ChildNodes(entry.children[k])))
  {
  }

  lemma DetailPairsCons(entries: seq<Node>, i: int)
    requires 0 < i <= |entries|
    ensures DetailPairs(entries[..i]) == |ChildNodes(entries[0])| + DetailPairs(entries[1..][..i - 1])
  {
    assert entries[..i][0] == entries[0];
    assert entries[..i][1..] == entries[1..][..i - 1];
  }

  /** Every line a section produces starts with the prefix of its category. */
  lemma {:induction false} DetailLinesPrefixed(prefix: string, entries: seq<Node>)
    ensures forall k :: 0 <= k < |DetailEvents(prefix, entries)| && DetailEvents(prefix, entries)[k].Ok?
              ==> prefix <= DetailEvents(prefix, entries)[k].value
  {
    if entries != [] {
      DetailLinesPrefixed(prefix, entries[1..]);
      var head := PairEvents(prefix, entries[0]);
      forall k | 0 <= k < |head| && head[k].Ok? ensures prefix <= head[k].value {
        var f := AttrFields(entries[0].attrs) + ChildFields(ChildNodes(entries[0].children[k]));
        EventLineSpec(prefix, f);
      }
    }
  }

  lemma LinesPrefixed(c: Category, ts: string, org: string, nodes: seq<Node>)
    ensures var evs := CategoryEvents(c, ts, org, nodes);
      forall k :: 0 <= k < |evs| && evs[k].Ok? ==> Prefix(ts, org, Label(c)) <= evs[k].value
  {
    if nodes != [] {
      var prefix := Prefix(ts, org, Label(c));
      var entries := ChildNodes(nodes[0]);
      if c == Connection || c == Malware || c == Vulnerability {
        DetailLinesPrefixed(prefix, entries);
      } else if c == OS || c == QualityFeature {
        forall k | 0 <= k < |entries| && EntryEvent(prefix, entries[k]).Ok?
          ensures prefix <= EntryEvent(prefix, entries[k]).value
        {
          EventLineSpec(prefix, AttrFields(entries[k].attrs) + ChildFields(entries[k].children));
        }
      }
    }
  }

  /** OS and QualityFeature give one event per entry; a text entry faults. */
  lemma EntryEventsShape(prefix: string, entries: seq<Node>, k: int)
    requires 0 <= k < |entries|
    ensures entries[k].Text? ==> EntryEvents(prefix, entries)[k] == Err(NullAttributes)
    ensures entries[k].Element? ==>
      EntryEvents(prefix, entries)[k] == EventLine(prefix, AttrFields(entries[k].attrs) + ChildFields(entries[k].children))
  {
  }

  /** Update lines never carry an entry's attributes: entries that agree on
      name and text give the same lines, whatever their attributes. */
  lemma UpdateIgnoresAttributes(prefix: string, a: seq<Node>, b: seq<Node>)
    requires |a| == |b|
    requires forall k :: 0 <= k < |a| ==> Name(a[k]) == Name(b[k]) && InnerText(a[k]) == InnerText(b[k])
    ensures UpdateEvents(prefix, a) == UpdateEvents(prefix, b)
    ensures FirstFault(UpdateEvents(prefix, a)).None?
  {
    assert forall k :: 0 <= k < |a| ==> UpdateEvents(prefix, a)[k] == UpdateEvents(prefix, b)[k];
    UpdateNeverFaults(UpdateEvents(prefix, a));
  }

  lemma {:induction false} UpdateNeverFaults(evs: seq<Event>)
    requires forall k :: 0 <= k < |evs| ==> evs[k].Ok?
    ensures FirstFault(evs).None?
  {
    if evs != [] {
      UpdateNeverFaults(evs[1..]);
    }
  }

  /** The flattened record: timestamp, the header fields in
      document order, the category, then the entry's fields. */
  function Record(ts: string, header: seq<Node>, kind: string, fields: seq<Field>): seq<Field>
  {
    [("@timestamp", ts)] + ChildFields(header) + [("category", kind)] + fields
  }

  /** The prefix is the timestamp, header and category pairs, each followed by a comma. */
  lemma PrefixTerminated(ts: string, header: seq<Node>, kind: string)
    ensures Prefix(ts, OrgInfo(header), kind)
         == Terminated([Kv(("@timestamp", ts))] + Kvs(ChildFields(header)) + [Kv(("category", kind))], ',')
  {
    Text.TerminatedAround(Kv(("@timestamp", ts)), Kvs(ChildFields(header)), Kv(("category", kind)), ',');
  }

  lemma RecordKvs(ts: string, header: seq<Node>, kind: string, fields: seq<Field>)
    ensures Kvs(Record(ts, header, kind, fields))
         == [Kv(("@timestamp", ts))] + Kvs(ChildFields(header)) + [Kv(("category", kind))] + Kvs(fields)
  {
    KvsConcat([("@timestamp", ts)] + ChildFields(header) + [("category", kind)], fields);
    KvsConcat([("@timestamp", ts)] + ChildFields(header), [("category", kind)]);
    KvsConcat([("@timestamp", ts)], ChildFields(header));
  }

  /** A line is the record's `key:value` pairs joined by commas; only when the
      entry contributes no field does the line end in a comma. */
  lemma RecordLine(ts: string, header: seq<Node>, kind: string, fields: seq<Field>)
    ensures var rec := Kvs(Record(ts, header, kind, fields));
      Prefix(ts, OrgInfo(header), kind) + Join(Kvs(fields), ',')
        == if fields == [] then Terminated(rec, ',') else Join(rec, ',')
  {
    var front := [Kv(("@timestamp", ts))] + Kvs(ChildFields(header)) + [Kv(("category", kind))];
    RecordKvs(ts, header, kind, fields);
    PrefixTerminated(ts, header, kind);
    if fields == [] {
      assert front + Kvs(fields) == front;
    } else {
      TerminatedJoin(front, Kvs(fields), ',');
    }
  }

  predicate CommaFree(f: Field)
  {
    ',' !in f.0 && ',' !in f.1
  }

  /** Splitting a line at its commas recovers the record's pairs, provided no
      key or value holds a comma (the format has no escaping). */
  lemma RecordRoundTrip(ts: string, header: seq<Node>, kind: string, fields: seq<Field>)
    requires fields != []
    requires forall k :: 0 <= k < |Record(ts, header, kind, fields)| ==> CommaFree(Record(ts, header, kind, fields)[k])
    ensures Split(Prefix(ts, OrgInfo(header), kind) + Join(Kvs(fields), ','), ',') == Kvs(Record(ts, header, kind, fields))
  {
    RecordLine(ts, header, kind, fields);
    var rec := Record(ts, header, kind, fields);
    forall k | 0 <= k < |rec| ensures ',' !in Kvs(rec)[k] {
      assert Kvs(rec)[k] == rec[k].0 + ":" + rec[k].1;
    }
    SplitJoin(Kvs(rec), ',');
  }

  /** Without a fault, a document's lines are those of the six categories in
      the order connection, malware, os, qualityfeature, update, vulnerability. */
  lemma DocumentLinesInOrder(doc: Node)
    requires Header(doc).Ok?
    requires FirstFault(DocumentEvents(doc)).None?
    ensures var ts, org := Header(doc).value.0, Header(doc).value.1;
      Emitted(DocumentEvents(doc))
        == Emitted(CategoryIn(doc, Connection, ts, org)) + Emitted(CategoryIn(doc, Malware, ts, org))
         + Emitted(CategoryIn(doc, OS, ts, org)) + Emitted(CategoryIn(doc, QualityFeature, ts, org))
         + Emitted(CategoryIn(doc, Update, ts, org)) + Emitted(CategoryIn(doc, Vulnerability, ts, org))
  {
    var ts, org := Header(doc).value.0, Header(doc).value.1;
    var e1, e2, e3 := CategoryIn(doc, Connection, ts, org), CategoryIn(doc, Malware, ts, org), CategoryIn(doc, OS, ts, org);
    var e4, e5, e6 := CategoryIn(doc, QualityFeature, ts, org), CategoryIn(doc, Update, ts, org), CategoryIn(doc, Vulnerability, ts, org);
    StreamConcat(e1 + e2 + e3 + e4 + e5, e6);
    StreamConcat(e1 + e2 + e3 + e4, e5);
    StreamConcat(e1 + e2 + e3, e4);
    StreamConcat(e1 + e2, e3);
    StreamConcat(e1, e2);
  }
}
