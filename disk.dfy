/** The file system as the service sees it: each path holds a creation time
    and the lines appended to it so far, and the directory listing returns
    paths in the order the files were created. Directories themselves are not
    modelled: a path is in a directory when the directory is a prefix of it and
    no further separator follows. */
module Disk {
  import opened Base
  import opened Text
  import opened Clock

  datatype FileEntry = FileEntry(created: DateTime, lines: seq<string>)

  datatype Disk = Disk(files: map<string, FileEntry>, order: seq<string>)

  /** The listing order holds every file exactly once. */
  predicate Wf(d: Disk)
  {
    && NoDup(d.order)
    && (forall p :: p in d.files ==> p in d.order)
    && (forall p :: p in d.order ==> p in d.files)
  }

  function LinesOf(d: Disk, p: string): seq<string>
  {
    if p in d.files then d.files[p].lines else []
  }

  /** `File.GetCreationTime`, which gives 1601-01-01 for a missing file. */
  function CreationTime(d: Disk, p: string): DateTime
  {
    if p in d.files then d.files[p].created else NoSuchFileTime
  }

  /** `File.AppendText(path)` then `WriteLine(line)`: a missing file is created,
      stamped `now`, and the line goes after every line already there. */
  function Append(d: Disk, path: string, line: string, now: DateTime): Disk
  {
    if path in d.files then
      Disk(d.files[path := FileEntry(d.files[path].created, d.files[path].lines + [line])], d.order)
    else
      Disk(d.files[path := FileEntry(now, [line])], d.order + [path])
  }

  function Without(s: seq<string>, x: string): (r: seq<string>)
    ensures forall y :: y in r <==> y in s && y != x
  {
    if s == [] then [] else (if s[0] == x then [] else [s[0]]) + Without(s[1..], x)
  }

  /** `File.Delete(path)`; deleting a missing file changes nothing. */
  function Remove(d: Disk, path: string): Disk
  {
    Disk(d.files - {path}, Without(d.order, path))
  }

  predicate InDir(p: string, dir: string)
  {
    |dir| < |p| && p[..|dir|] == dir && '\\' !in p[|dir|..]
  }

  /** `Directory.GetFiles(dir)` over a listing order. */
  function Listing(order: seq<string>, dir: string): seq<string>
  {
    if order == [] then []
    else Listing(order[..|order| - 1], dir) + (if InDir(order[|order| - 1], dir) then [order[|order| - 1]] else [])
  }

  // ------------------------------------------------------------ properties

  lemma {:induction false} WithoutNoDup(s: seq<string>, x: string)
    requires NoDup(s)
    ensures NoDup(Without(s, x))
  {
    if s != [] {
      WithoutNoDup(s[1..], x);
      assert s[0] !in s[1..] by {
        forall k | 0 <= k < |s[1..]| ensures s[1..][k] != s[0] {
          assert s[1..][k] == s[k + 1];
        }
      }
    }
  }

  /** Appending keeps the disk well formed; the target gains exactly the new
      line at its end, keeps its creation time if it existed and is stamped
      `now` otherwise; every other file is untouched. */
  lemma AppendSpec(d: Disk, path: string, line: string, now: DateTime)
    requires Wf(d)
    ensures var r := Append(d, path, line, now);
      && Wf(r)
      && path in r.files
      && LinesOf(r, path) == LinesOf(d, path) + [line]
      && r.files[path].created == (if path in d.files then d.files[path].created else now)
      && (forall q :: q != path ==> (q in r.files <==> q in d.files))
      && (forall q :: q != path && q in d.files ==> r.files[q] == d.files[q])
  {
    var r := Append(d, path, line, now);
    if path !in d.files {
      assert NoDup(r.order) by {
        assert path !in d.order;
        forall i, j | 0 <= i < j < |r.order| ensures r.order[i] != r.order[j] {
          if j == |r.order| - 1 {
            assert r.order[i] == d.order[i];
          } else {
            assert r.order[i] == d.order[i] && r.order[j] == d.order[j];
          }
        }
      }
    }
  }

  /** Removing takes exactly that path away and keeps the disk well formed. */
  lemma RemoveSpec(d: Disk, path: string)
    requires Wf(d)
    ensures var r := Remove(d, path);
      && Wf(r)
      && path !in r.files
      && (forall q :: q != path ==> (q in r.files <==> q in d.files))
      && (forall q :: q in r.files ==> r.files[q] == d.files[q])
  {
    WithoutNoDup(d.order, path);
  }

  /** The listing holds each file of the directory once and nothing else. */
  lemma {:induction false} ListingSpec(order: seq<string>, dir: string)
    requires NoDup(order)
    ensures NoDup(Listing(order, dir))
    ensures forall p :: p in Listing(order, dir) <==> p in order && InDir(p, dir)
  {
    if order != [] {
      var init, last := order[..|order| - 1], order[|order| - 1];
      assert NoDup(init) by {
        forall i, j | 0 <= i < j < |init| ensures init[i] != init[j] {
          assert init[i] == order[i] && init[j] == order[j];
        }
      }
      ListingSpec(init, dir);
      assert last !in init by {
        forall k | 0 <= k < |init| ensures init[k] != last {
          assert init[k] == order[k];
        }
      }
      assert order == init + [last];
      var l := Listing(order, dir);
      forall i, j | 0 <= i < j < |l| ensures l[i] != l[j] {
        var li := Listing(init, dir);
        if j >= |li| {
          assert l[j] == last && l[i] == li[i];
        } else {
          assert l[i] == li[i] && l[j] == li[j];
        }
      }
    }
  }

  /** Listing is stable under appending paths of other directories and under
      removing a path of another directory. */
  lemma {:induction false} ListingConcat(a: seq<string>, b: seq<string>, dir: string)
    ensures Listing(a + b, dir) == Listing(a, dir) + Listing(b, dir)
    decreases |b|
  {
    if b == [] {
      assert a + b == a;
    } else {
      var bi := b[..|b| - 1];
      assert (a + b)[..|a + b| - 1] == a + bi;
      assert (a + b)[|a + b| - 1] == b[|b| - 1];
      ListingConcat(a, bi, dir);
    }
  }

  lemma {:induction false} ListingWithout(s: seq<string>, x: string, dir: string)
    requires !InDir(x, dir)
    ensures Listing(Without(s, x), dir) == Listing(s, dir)
  {
    if s != [] {
      ListingWithout(s[1..], x, dir);
      assert s == [s[0]] + s[1..];
      ListingConcat([s[0]], s[1..], dir);
      ListingConcat(if s[0] == x then [] else [s[0]], Without(s[1..], x), dir);
      assert Listing([s[0]], dir) == Listing([], dir) + (if InDir(s[0], dir) then [s[0]] else []);
    }
  }

  // -------------------------------------------------------------- effects

  /** What one step of the service does to the disk: a `write_to_file` call
      (the line is lower-cased on its way to the file) or a `File.Delete`. */
  datatype Effect = Write(path: string, content: string) | Delete(path: string)

  function Step(d: Disk, e: Effect, now: DateTime): Disk
  {
    match e
    case Write(p, c) => Append(d, p, Lower(c), now)
    case Delete(p) => Remove(d, p)
  }

  function Apply(d: Disk, es: seq<Effect>, now: DateTime): Disk
    decreases |es|
  {
    if es == [] then d else Apply(Step(d, es[0], now), es[1..], now)
  }

  function Writes(path: string, lines: seq<string>): (r: seq<Effect>)
    ensures |r| == |lines|
  {
    seq(|lines|, k requires 0 <= k < |lines| => Write(path, lines[k]))
  }

  function LowerAll(lines: seq<string>): (r: seq<string>)
    ensures |r| == |lines|
  {
    seq(|lines|, k requires 0 <= k < |lines| => Lower(lines[k]))
  }

  lemma {:induction false} ApplyConcat(d: Disk, a: seq<Effect>, b: seq<Effect>, now: DateTime)
    ensures Apply(d, a + b, now) == Apply(Apply(d, a, now), b, now)
    decreases |a|
  {
    if a == [] {
      assert a + b == b;
    } else {
      assert (a + b)[0] == a[0];
      assert (a + b)[1..] == a[1..] + b;
      ApplyConcat(Step(d, a[0], now), a[1..], b, now);
    }
  }

  lemma WritesConcat(path: string, a: seq<string>, b: seq<string>)
    ensures Writes(path, a + b) == Writes(path, a) + Writes(path, b)
  {
  }

  /** Writing a batch of lines to one file appends them, lower-cased and in
      order, after what the file held; the disk stays well formed and no other
      file changes. */
  lemma {:induction false} WritesAppendInOrder(d: Disk, path: string, lines: seq<string>, now: DateTime)
    requires Wf(d)
    ensures var r := Apply(d, Writes(path, lines), now);
      && Wf(r)
      && LinesOf(r, path) == LinesOf(d, path) + LowerAll(lines)
      && (path in d.files ==> path in r.files && r.files[path].created == d.files[path].created)
      && (path !in d.files && lines != [] ==> path in r.files && r.files[path].created == now)
      && (forall q :: q != path ==> (q in r.files <==> q in d.files))
      && (forall q :: q != path && q in d.files ==> r.files[q] == d.files[q])
    decreases |lines|
  {
    if lines == [] {
      assert LowerAll(lines) == [];
      EmptyConcat(Writes(path, lines), []);
      assert LinesOf(d, path) + [] == LinesOf(d, path);
    } else {
      var d1 := Append(d, path, Lower(lines[0]), now);
      WritesCons(d, path, lines, now);
      AppendSpec(d, path, Lower(lines[0]), now);
      WritesAppendInOrder(d1, path, lines[1..], now);
      ConcatAssoc(LinesOf(d, path), [Lower(lines[0])], LowerAll(lines[1..]));
    }
  }

  /** The first of a batch of writes, and the rest. */
  lemma WritesCons(d: Disk, path: string, lines: seq<string>, now: DateTime)
    requires lines != []
    ensures Apply(d, Writes(path, lines), now) == Apply(Append(d, path, Lower(lines[0]), now), Writes(path, lines[1..]), now)
    ensures LowerAll(lines) == [Lower(lines[0])] + LowerAll(lines[1..])
  {
    var ws := Writes(path, lines);
    assert ws[0] == Write(path, lines[0]);
    assert ws[1..] == Writes(path, lines[1..]);
  }

  /** Any run of effects keeps the disk well formed. */
  lemma {:induction false} ApplyWf(d: Disk, es: seq<Effect>, now: DateTime)
    requires Wf(d)
    ensures Wf(Apply(d, es, now))
    decreases |es|
  {
    if es != [] {
      match es[0] {
        case Write(p, c) => AppendSpec(d, p, Lower(c), now);
        case Delete(p) => RemoveSpec(d, p);
      }
      ApplyWf(Step(d, es[0], now), es[1..], now);
    }
  }

  /** Effects that never name `p` leave the file at `p` as it was. */
  lemma {:induction false} ApplyUntouched(d: Disk, es: seq<Effect>, p: string, now: DateTime)
    requires Wf(d)
    requires forall k :: 0 <= k < |es| ==> es[k].path != p
    ensures var r := Apply(d, es, now);
      && (p in r.files <==> p in d.files)
      && (p in d.files ==> r.files[p] == d.files[p])
    decreases |es|
  {
    if es != [] {
      var d1 := Step(d, es[0], now);
      match es[0] {
        case Write(q, c) => AppendSpec(d, q, Lower(c), now);
        case Delete(q) => RemoveSpec(d, q);
      }
      ApplyUntouched(d1, es[1..], p, now);
    }
  }

  /** Writes to one file and deletions outside a directory leave that
      directory's listing as it was, except that the file, when the writes
      create it, joins the end. */
  lemma {:induction false} ListingAfterLog(d: Disk, es: seq<Effect>, log: string, dir: string, now: DateTime)
    requires Wf(d)
    requires forall k :: 0 <= k < |es| ==> (if es[k].Write? then es[k].path == log else es[k].path != log && !InDir(es[k].path, dir))
    ensures var r := Apply(d, es, now);
      && Wf(r)
      && (log in d.files ==> log in r.files)
      && Listing(r.order, dir) == Listing(d.order, dir) + (if log !in d.files && log in r.files then Listing([log], dir) else [])
    decreases |es|
  {
    if es != [] {
      var e := es[0];
      var tail := es[1..];
      var d1 := Step(d, e, now);
      assert Apply(d, es, now) == Apply(d1, tail, now);
      if e.Write? {
        assert d1 == Append(d, log, Lower(e.content), now);
        AppendSpec(d, log, Lower(e.content), now);
        if log !in d.files {
          assert d1.order == d.order + [log];
          ListingConcat(d.order, [log], dir);
        }
      } else {
        assert d1 == Remove(d, e.path);
        RemoveSpec(d, e.path);
        ListingWithout(d.order, e.path, dir);
      }
      assert forall k :: 0 <= k < |tail| ==> tail[k] == es[k + 1];
      ListingAfterLog(d1, tail, log, dir, now);
    }
  }
}
