/** The loops that build one event line in the `*_to_event` routines and the
    organisation part in `file_parsing`, each proved to compute the function
    of the flattening model that specifies it. */
module Messages {
  import opened Base
  import opened Text
  import opened Xml
  import opened Flatten

  lemma TerminatedSnoc(xs: seq<string>, x: string, sep: char)
    ensures Terminated(xs + [x], sep) == Terminated(xs, sep) + x + [sep]
  {
    TerminatedConcat(xs, [x], sep);
    assert [x][1..] == [];
  }

  lemma KvsSnoc(fs: seq<Field>, f: Field)
    ensures Kvs(fs + [f]) == Kvs(fs) + [Kv(f)]
  {
    KvsConcat(fs, [f]);
  }

  /** The header loop of `file_parsing`: `Name:InnerText,` for each node. */
  method OrganizationInfo(header: seq<Node>) returns (org: string)
    ensures org == OrgInfo(header)
  {
    org := "";
    var i := 0;
    while i < |header|
      invariant 0 <= i <= |header|
      invariant org == Terminated(Kvs(ChildFields(header[..i])), ',')
    {
      var node := header[i];
      assert ChildFields(header[..i + 1]) == ChildFields(header[..i]) + [(Name(node), InnerText(node))];
      KvsSnoc(ChildFields(header[..i]), (Name(node), InnerText(node)));
      TerminatedSnoc(Kvs(ChildFields(header[..i])), Kv((Name(node), InnerText(node))), ',');
      org := org + Name(node) + ":" + InnerText(node) + ",";
      i := i + 1;
    }
    assert header[..i] == header;
  }

  /** A key that repeats stays the first repeat, whatever is added after it. */
  lemma {:induction false} FirstDuplicateExtends(xs: seq<Field>, ys: seq<Field>)
    requires FirstDuplicate(xs).Some?
    ensures FirstDuplicate(xs + ys) == FirstDuplicate(xs)
    decreases |ys|
  {
    if ys == [] {
      assert xs + ys == xs;
    } else {
      var yi := ys[..|ys| - 1];
      assert (xs + ys)[..|xs + ys| - 1] == xs + yi;
      FirstDuplicateExtends(xs, yi);
    }
  }

  /** `event_info.Add` for each field in turn, the dictionary keeping its
      insertion order; an `Add` of a key already present throws and stops. */
  method AddFields(entries: seq<Field>, adding: seq<Field>) returns (r: Result<seq<Field>, Fault>)
    requires FirstDuplicate(entries).None?
    ensures r.Ok? <==> FirstDuplicate(entries + adding).None?
    ensures r.Ok? ==> r.value == entries + adding
    ensures r.Err? ==> r.error == DuplicateKey(FirstDuplicate(entries + adding).value)
  {
    var dict := entries;
    var i := 0;
    while i < |adding|
      invariant 0 <= i <= |adding|
      invariant dict == entries + adding[..i]
      invariant FirstDuplicate(dict).None?
    {
      var f := adding[i];
      assert (dict + [f])[..|dict|] == dict;
      assert entries + adding == dict + [f] + adding[i + 1..] by {
        assert adding == adding[..i] + [f] + adding[i + 1..];
      }
      if f.0 in KeysOf(dict) {
        FirstDuplicateExtends(dict + [f], adding[i + 1..]);
        return Err(DuplicateKey(f.0));
      }
      dict := dict + [f];
      i := i + 1;
    }
    assert adding[..i] == adding;
    return Ok(dict);
  }

  /** The message loop: each field as `key:value` after the prefix, with a
      comma after every field but the last. */
  method RenderMessage(prefix: string, fields: seq<Field>) returns (message: string)
    ensures message == prefix + Join(Kvs(fields), ',')
  {
    message := prefix;
    var i := 0;
    while i < |fields|
      invariant 0 <= i <= |fields|
      invariant message == prefix + Join(Kvs(fields[..i]), ',') + Comma(0 < i < |fields|)
    {
      ghost var before := Join(Kvs(fields[..i]), ',');
      ghost var after := Join(Kvs(fields[..i + 1]), ',');
      KvsSnoc(fields[..i], fields[i]);
      assert fields[..i + 1] == fields[..i] + [fields[i]];
      if i > 0 {
        JoinSnoc(Kvs(fields[..i]), Kv(fields[i]), ',');
        assert after == before + "," + Kv(fields[i]);
      } else {
        assert Kvs(fields[..i + 1]) == [Kv(fields[i])];
        assert after == Kv(fields[i]);
      }
      message := message + fields[i].0 + ":" + fields[i].1;
      assert message == prefix + after;
      if i < |fields| - 1 {
        message := message + ",";
      }
      i := i + 1;
    }
    assert fields[..i] == fields;
  }

  function Comma(b: bool): string
  {
    if b then "," else ""
  }

  /** One event of a section: the entry's attributes, then the given child
      nodes, into a fresh dictionary, then the message. */
  method EventMessage(prefix: string, attrs: seq<Attr>, children: seq<Node>) returns (ev: Event)
    ensures ev == EventLine(prefix, AttrFields(attrs) + ChildFields(children))
  {
    var added := AddFields([], AttrFields(attrs));
    assert [] + AttrFields(attrs) == AttrFields(attrs);
    if added.Err? {
      FirstDuplicateExtends(AttrFields(attrs), ChildFields(children));
      return Err(added.error);
    }
    var all := AddFields(added.value, ChildFields(children));
    if all.Err? {
      return Err(all.error);
    }
    var message := RenderMessage(prefix, all.value);
    return Ok(message);
  }
}
