/** The subtitle index: `Database` and the search-engine objects it uses.
    The engine is an abstract store: an `Index` holds the committed
    documents, an `IndexWriter` collects documents and makes them visible
    together at `Commit`. */
module Subsearch {
  import opened Options
  import opened Paths
  import opened FileTree
  import opened IndexSpec

  /** The committed documents of one index, in the order they were
      committed. */
  class Index {
    var docs: seq<Document>

    constructor ()
      ensures docs == []
    {
      docs := [];
    }

    /** `ix.writer()`: a writer whose documents nobody sees before it
        commits. */
    method Writer() returns (w: IndexWriter)
      ensures fresh(w) && w.ix == this && w.pending == []
    {
      w := new IndexWriter(this);
    }
  }

  class IndexWriter {
    const ix: Index
    var pending: seq<Document>

    constructor (ix: Index)
      ensures this.ix == ix && pending == []
    {
      this.ix := ix;
      pending := [];
    }

    /** `writer.add_document(...)`: the document waits for the commit. */
    method AddDocument(d: Document)
      modifies this
      ensures pending == old(pending) + [d]
    {
      pending := pending + [d];
    }

    /** `writer.commit()`: every pending document becomes visible at once,
        after the ones committed before. */
    method Commit()
      modifies ix
      ensures ix.docs == old(ix.docs) + pending
    {
      ix.docs := ix.docs + pending;
    }
  }

  /** The configuration file written by `create`: the JSON object
      `{"relative": relative}`. */
  function ConfigFor(relative: bool): map<string, bool>
  {
    map["relative" := relative]
  }

  /** The `relative` flag `open` passes to the constructor as keyword
      arguments: the constructor accepts the object only when `relative` is
      its one key. */
  function RelativeOf(config: map<string, bool>): (r: Option<bool>)
    ensures r.Some? <==> config.Keys == {"relative"}
    ensures r.Some? ==> r.value == config["relative"]
  {
    if config.Keys == {"relative"} then Some(config["relative"]) else None
  }

  /** The flag written by `create` is the flag read back by `open`. */
  lemma ConfigRoundTrip(relative: bool)
    ensures RelativeOf(ConfigFor(relative)) == Some(relative)
  {
    assert ConfigFor(relative).Keys == {"relative"};
  }

  /** The storage directory of an index: the engine's index, if one was
      created there, and the configuration file, if one exists. */
  class Location {
    var ix: Index?
    var config: Option<map<string, bool>>

    constructor ()
      ensures ix == null && config == None
    {
      ix := null;
      config := None;
    }
  }

  datatype OpenError = NoIndex | NoConfig | BadConfig

  datatype Opened = Opened(db: Database) | Failed(error: OpenError)

  /** The effective policy of one `add` call: the argument, or the
      database's own flag when the argument is `None`. */
  function Policy(override: Option<bool>, stored: bool): (r: bool)
    ensures override.None? ==> r == stored
    ensures override.Some? ==> r == override.value
  {
    if override.None? then stored else override.value
  }

  class Database {
    /** The index root as it was given to `create` or `open`. */
    const path: Path
    const ix: Index
    /** Whether stored paths are relative to `path`. */
    const relative: bool

    constructor (path: Path, ix: Index, relative: bool)
      ensures this.path == path && this.ix == ix && this.relative == relative
    {
      this.path := path;
      this.ix := ix;
      this.relative := relative;
    }

    /** `Database.create`: a new, empty index at `loc`, and the relative
        policy recorded in its configuration. */
    static method Create(loc: Location, path: Path, relative: bool) returns (db: Database)
      modifies loc
      ensures fresh(db) && fresh(db.ix) && db.ix.docs == []
      ensures db.path == path && db.relative == relative
      ensures loc.ix == db.ix && loc.config == Some(ConfigFor(relative))
    {
      var ix := new Index();
      loc.ix := ix;
      loc.config := Some(ConfigFor(relative));
      db := new Database(path, ix, relative);
    }

    /** `Database.open`: the index at `loc` with the policy from its
        configuration; fails when there is no index, no configuration, or a
        configuration the constructor does not accept. */
    static method Open(loc: Location, path: Path) returns (r: Opened)
      ensures loc.ix == null ==> r == Failed(NoIndex)
      ensures loc.ix != null && loc.config.None? ==> r == Failed(NoConfig)
      ensures loc.ix != null && loc.config.Some? && RelativeOf(loc.config.value).None? ==> r == Failed(BadConfig)
      ensures loc.ix != null && loc.config.Some? && RelativeOf(loc.config.value).Some? ==>
                r.Opened? && fresh(r.db) && r.db.ix == loc.ix && r.db.path == path
                && r.db.relative == RelativeOf(loc.config.value).value
    {
      if loc.ix == null {
        return Failed(NoIndex);
      }
      if loc.config.None? {
        return Failed(NoConfig);
      }
      var relative := RelativeOf(loc.config.value);
      if relative.None? {
        return Failed(BadConfig);
      }
      var db := new Database(path, loc.ix, relative.value);
      r := Opened(db);
    }

    /** `Database.add`: a directory is walked through `AddRecursive`; a file
        has its subtitles read from `p` itself, and then its non-comment
        events go in through one writer and one commit under the resolved
        stored path. When reading raises, `ok` is false and nothing of the
        file is committed. */
    method Add(fs: FileSystem, read: Reader, p: Path, relative: Option<bool>) returns (ok: bool)
      requires WellFormed(fs)
      modifies ix
      ensures var o := AddPath(fs, FileAdder(read, fs.cwd, path, Policy(relative, this.relative)), p);
              ok == o.ok && ix.docs == old(ix.docs) + o.added
      decreases EntryAt(fs, p), 3
    {
      var rel := Policy(relative, this.relative);
      if IsDir(fs, p) {
        ok := AddRecursive(fs, read, p, Some(rel));
        return;
      }
      var stored := StoredPath(fs.cwd, path, rel, p);
      var subs := read(p);
      if subs.None? {
        return false;
      }
      WriteDocuments(stored, subs.value);
      ok := true;
    }

    /** The writer loop of `Database.add`: one writer, every non-comment
        event in order as a document under `stored`, one commit. */
    method WriteDocuments(stored: Path, evs: seq<SsaEvent>)
      modifies ix
      ensures ix.docs == old(ix.docs) + FileDocuments(stored, evs)
    {
      var writer := ix.Writer();
      var i := 0;
      while i < |evs|
        invariant 0 <= i <= |evs|
        invariant writer.pending == FileDocuments(stored, evs[..i])
        invariant ix.docs == old(ix.docs)
      {
        var ev := evs[i];
        if !ev.isComment {
          writer.AddDocument(ToDocument(stored, ev));
        }
        assert evs[..i + 1][..i] == evs[..i];
        i := i + 1;
      }
      assert evs[..i] == evs;
      writer.Commit();
    }

    /** One turn of the loop in `add_recursive`: the `i`-th name in sorted
        order joined onto `p`, and what lies there added. */
    method AddChild(fs: FileSystem, read: Reader, p: Path, rel: bool, names: seq<string>, i: nat,
                    ghost start: seq<Document>) returns (ok: bool)
      requires WellFormed(fs) && IsDir(fs, p) && names == Sort(ListDir(fs, p))
      requires i < |names| == |ListDir(fs, p)|
      requires var a := AddEntries(FileAdder(read, fs.cwd, path, rel), EntryAt(fs, p), p, names, i);
               a.ok && ix.docs == start + a.added
      modifies ix
      ensures var c := AddEntries(FileAdder(read, fs.cwd, path, rel), EntryAt(fs, p), p, names, i + 1);
              ok == c.ok && ix.docs == start + c.added
      decreases EntryAt(fs, p), 0
    {
      ChildStep(fs, FileAdder(read, fs.cwd, path, rel), p, i);
      var full := Join(p, Path(false, [names[i]]));
      ghost var before := ix.docs;
      ok := Add(fs, read, full, Some(rel));
      AddEntriesNext(fs, FileAdder(read, fs.cwd, path, rel), p, i, start, before, ix.docs, ok);
    }

    /** The loop of `add_recursive` over the sorted names of the directory
        `p`: it stops after the first name whose add raises, or after the
        last name. */
    method AddNames(fs: FileSystem, read: Reader, p: Path, rel: bool, names: seq<string>) returns (ok: bool, i: nat)
      requires WellFormed(fs) && IsDir(fs, p) && names == Sort(ListDir(fs, p))
      modifies ix
      ensures i <= |names| && (i == |names| || !ok)
      ensures var a := AddEntries(FileAdder(read, fs.cwd, path, rel), EntryAt(fs, p), p, names, i);
              ok == a.ok && ix.docs == old(ix.docs) + a.added
      decreases EntryAt(fs, p), 1
    {
      ghost var e := EntryAt(fs, p);
      ghost var add := FileAdder(read, fs.cwd, path, rel);
      ghost var o := Outcome(true, []);
      ok := true;
      i := 0;
      while i < |names| && ok
        invariant 0 <= i <= |names|
        invariant o == AddEntries(add, e, p, names, i)
        invariant ok == o.ok && ix.docs == old(ix.docs) + o.added
      {
        ok := AddChild(fs, read, p, rel, names, i, old(ix.docs));
        i := i + 1;
        o := AddEntries(add, e, p, names, i);
      }
    }

    /** `Database.add_recursive`: every entry of the directory `p`, in sorted
        order, is added with the same arguments; the first entry that
        raises ends the walk, and what was committed before stays. Listing
        something that is not a directory raises. */
    method AddRecursive(fs: FileSystem, read: Reader, p: Path, relative: Option<bool>) returns (ok: bool)
      requires WellFormed(fs)
      modifies ix
      ensures !IsDir(fs, p) ==> !ok && ix.docs == old(ix.docs)
      ensures IsDir(fs, p) ==>
                var o := AddPath(fs, FileAdder(read, fs.cwd, path, Policy(relative, this.relative)), p);
                ok == o.ok && ix.docs == old(ix.docs) + o.added
      decreases EntryAt(fs, p), 2
    {
      if !IsDir(fs, p) {
        return false;
      }
      var rel := Policy(relative, this.relative);
      var i;
      ok, i := AddNames(fs, read, p, rel, Sort(ListDir(fs, p)));
      AddEntriesStop(FileAdder(read, fs.cwd, path, rel), EntryAt(fs, p), p, i);
    }

    /** `Database.search` after the engine has run the query: the hits in
        the engine's order `ranking`, at most `limit` of them, each with the
        stored path joined onto the index root and normalised. */
    method Search(matches: Document -> bool, ranking: seq<nat>, limit: Option<nat>) returns (results: seq<Result>)
      requires IsRanking(ix.docs, matches, ranking)
      ensures results == Hits(path, ix.docs, ranking, Limited(|ranking|, limit))
      ensures limit.Some? ==> |results| <= limit.value
    {
      var n := Limited(|ranking|, limit);
      results := [];
      var k := 0;
      while k < n
        invariant 0 <= k <= n
        invariant results == Hits(path, ix.docs, ranking, k)
      {
        var d := ix.docs[ranking[k]];
        HitsSnoc(path, ix.docs, ranking, k);
        results := results + [Reconstitute(path, d)];
        k := k + 1;
      }
    }
  }

  /** Creating an index and opening it again gives back the policy it was
      created with and the same, empty, index. */
  method CreateThenOpen(loc: Location, path: Path, relative: bool) returns (db: Database)
    modifies loc
    ensures db.relative == relative && db.path == path && db.ix.docs == []
  {
    var created := Database.Create(loc, path, relative);
    ConfigRoundTrip(relative);
    var reopened := Database.Open(loc, path);
    db := reopened.db;
  }
}
