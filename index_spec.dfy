/** What `Database.add`, `Database.add_recursive` and `Database.search`
    compute, as functions of their inputs: which documents a file
    contributes, which files a directory walk visits and in what order, how
    the stored path is resolved, and how `search` turns it back into a path
    usable for file access. The classes in module Subsearch are proved
    against these functions. */
module IndexSpec {
  import opened Options
  import opened Paths
  import opened FileTree

  /** One subtitle event as the subtitle reader returns it: times in
      milliseconds, the comment flag, and the text without markup. */
  datatype SsaEvent = SsaEvent(start: int, end: int, isComment: bool, plaintext: string)

  /** One stored index document: the fields of the index schema. */
  datatype Document = Document(path: Path, start: int, end: int, content: string)

  /** One search hit, with its path made usable again. */
  datatype Result = Result(path: Path, content: string, start: int, end: int)
  {
    /** `Result.midpoint`, in exact arithmetic: the point as far from `start`
        as from `end`, and so between them. */
    function Midpoint(): (m: real)
      ensures m - start as real == end as real - m
      ensures start <= end ==> start as real <= m <= end as real
    {
      (start + end) as real / 2.0
    }
  }

  /** The subtitle reader: the events of the file at a path, or `None` when
      reading raises. */
  type Reader = Path -> Option<seq<SsaEvent>>

  // Resolving the stored path ---------------------------------------------

  /** The path `add` stores for the file `p`: relative to the index root
      `root`, normalised, under the relative policy; absolute otherwise. */
  function StoredPath(cwd: Path, root: Path, relative: bool, p: Path): (r: Path)
    requires cwd.absolute
    ensures Normal(r) && r.absolute == !relative
  {
    if relative then NormPath(RelPath(p, root, cwd)) else AbsPath(p, cwd)
  }

  /** The result `search` yields for a stored document: the stored path
      normalised after joining it onto the index root. */
  function Reconstitute(root: Path, d: Document): (r: Result)
    ensures r.content == d.content && r.start == d.start && r.end == d.end
    ensures d.path.absolute ==> r.path == NormPath(d.path)
    ensures Normal(r.path)
  {
    Result(NormPath(Join(root, d.path)), d.content, d.start, d.end)
  }

  /** `add` and `search` run as separate commands, each opening the index
      through its own path from its own working directory. As long as the
      two paths name the same index root, the path `search` yields for a
      document stored for `p`, resolved against the search's working
      directory, is `abspath(p)` as `add` saw it. Under the absolute policy
      the yielded path is `abspath(p)` outright, whatever the root path. */
  lemma {:induction false} SearchPathElsewhere(cwd: Path, root: Path, relative: bool, p: Path, d: Document,
                                               cwd2: Path, root2: Path)
    requires cwd.absolute && cwd2.absolute && d.path == StoredPath(cwd, root, relative, p)
    requires relative ==> AbsPath(root2, cwd2) == AbsPath(root, cwd)
    ensures AbsPath(Reconstitute(root2, d).path, cwd2) == AbsPath(p, cwd)
    ensures !relative ==> Reconstitute(root2, d).path == AbsPath(p, cwd)
  {
    if relative {
      AbsNorm(Join(root2, d.path), cwd2);
      AbsJoin(root2, d.path, cwd2);
      FoldNorm(true, AbsPath(root, cwd).parts, RelPath(p, root, cwd).parts);
      RelPartsApply(AbsPath(root, cwd).parts, AbsPath(p, cwd).parts);
    } else {
      AbsPathJoinFixed(p, root2, cwd);
      AbsPathJoinFixed(p, cwd2, cwd);
    }
  }

  /** The same with the root path and working directory `add` used. */
  lemma SearchPathRoundTrip(cwd: Path, root: Path, relative: bool, p: Path, d: Document)
    requires cwd.absolute && d.path == StoredPath(cwd, root, relative, p)
    ensures AbsPath(Reconstitute(root, d).path, cwd) == AbsPath(p, cwd)
    ensures !relative ==> Reconstitute(root, d).path == AbsPath(p, cwd)
  {
    SearchPathElsewhere(cwd, root, relative, p, d, cwd, root);
  }

  // The documents of one file ---------------------------------------------

  function ToDocument(stored: Path, ev: SsaEvent): Document
  {
    Document(stored, ev.start, ev.end, ev.plaintext)
  }

  /** The documents the loop over the events adds under the stored path
      `stored`: one per event that is not a comment. */
  function FileDocuments(stored: Path, evs: seq<SsaEvent>): seq<Document>
  {
    if evs == [] then []
    else
      var ev := evs[|evs| - 1];
      FileDocuments(stored, evs[..|evs| - 1]) + (if ev.isComment then [] else [ToDocument(stored, ev)])
  }

  /** The positions of the events that are not comments, in ascending
      order: exactly those, each once. */
  function NonCommentIndices(evs: seq<SsaEvent>): (idx: seq<nat>)
    ensures forall k :: 0 <= k < |idx| ==> idx[k] < |evs| && !evs[idx[k]].isComment
    ensures forall k, l :: 0 <= k < l < |idx| ==> idx[k] < idx[l]
    ensures forall i :: 0 <= i < |evs| && !evs[i].isComment ==> i in idx
  {
    if evs == [] then []
    else
      var front := NonCommentIndices(evs[..|evs| - 1]);
      var n := |evs| - 1;
      assert forall i :: 0 <= i < n ==> evs[..n][i] == evs[i];
      front + (if evs[n].isComment then [] else [n])
  }

  /** A file contributes exactly its non-comment events, in event order,
      each as (stored path, start, end, plain text). */
  lemma {:induction false} FileDocumentsExact(stored: Path, evs: seq<SsaEvent>)
    ensures var docs, idx := FileDocuments(stored, evs), NonCommentIndices(evs);
            |docs| == |idx| && forall k :: 0 <= k < |idx| ==> docs[k] == ToDocument(stored, evs[idx[k]])
  {
    if evs != [] {
      var n := |evs| - 1;
      var ev := evs[n];
      FileDocumentsExact(stored, evs[..n]);
      var front := NonCommentIndices(evs[..n]);
      var docs := FileDocuments(stored, evs[..n]);
      assert FileDocuments(stored, evs) == docs + (if ev.isComment then [] else [ToDocument(stored, ev)]);
      assert NonCommentIndices(evs) == front + (if ev.isComment then [] else [n]);
      forall k | 0 <= k < |front| ensures docs[k] == ToDocument(stored, evs[front[k]]) {
        assert evs[..n][front[k]] == evs[front[k]];
      }
    }
  }

  /** Every document of a file is the document of one of its non-comment
      events, and a file whose events are all comments contributes none. */
  lemma {:induction false} FileDocumentsFromEvents(stored: Path, evs: seq<SsaEvent>)
    ensures forall d :: d in FileDocuments(stored, evs) ==>
              exists i :: 0 <= i < |evs| && !evs[i].isComment && d == ToDocument(stored, evs[i])
    ensures (forall i :: 0 <= i < |evs| ==> evs[i].isComment) ==> FileDocuments(stored, evs) == []
  {
    FileDocumentsExact(stored, evs);
    var docs, idx := FileDocuments(stored, evs), NonCommentIndices(evs);
    forall d | d in docs
      ensures exists i :: 0 <= i < |evs| && !evs[i].isComment && d == ToDocument(stored, evs[i])
    {
      var k :| 0 <= k < |docs| && docs[k] == d;
      assert evs[idx[k]].isComment == false;
    }
    assert idx == [] || !evs[idx[0]].isComment;
  }

  // The directory walk ----------------------------------------------------

  /** Every name of a sorted listing is in the listing. */
  lemma SortedListing(e: Entry)
    requires e.Dir?
    ensures forall k :: 0 <= k < |Sort(Listing(e))| ==> Sort(Listing(e))[k] in Listing(e)
  {
    var names := Sort(Listing(e));
    SortPermutes(Listing(e));
    forall k | 0 <= k < |names| ensures names[k] in Listing(e) {
      assert names[k] in multiset(names);
    }
  }

  /** The files a walk from entry `e` at path `p` reaches, in the order it
      reaches them: `p` itself when `e` is not a directory; otherwise, for
      each name of the directory in sorted order, the files reached from
      that entry. */
  function Walk(e: Entry, p: Path): seq<Path>
    decreases e, 2
  {
    if e.Dir? then
      var names := Sort(Listing(e));
      WalkUpTo(e, p, names, |names|)
    else [p]
  }

  /** The files reached from the first `i` of `names`, names of the
      directory entry `e` at path `dir`. */
  function WalkUpTo(e: Entry, dir: Path, names: seq<string>, i: nat): seq<Path>
    requires e.Dir? && i <= |names|
    decreases e, 1, i
  {
    if i == 0 then [] else WalkUpTo(e, dir, names, i - 1) + WalkChild(e, dir, names[i - 1])
  }

  /** The files reached from the entry `name` of `e`, joined onto `dir`. */
  function WalkChild(e: Entry, dir: Path, name: string): seq<Path>
    requires e.Dir?
    decreases e, 0
  {
    if Lists(e, name) then Walk(ChildEntry(e, name), Join(dir, Path(false, [name]))) else []
  }

  /** The files `add` reaches from `p`. */
  function Leaves(fs: FileSystem, p: Path): seq<Path>
    requires WellFormed(fs)
  {
    Walk(EntryAt(fs, p), p)
  }

  /** A name of the directory `dir` joined onto `dir`: what the walk reaches
      from the name is what it reaches from the joined path, which lies
      strictly below `dir`. */
  lemma WalkChildLeaves(fs: FileSystem, dir: Path, name: string)
    requires WellFormed(fs) && IsDir(fs, dir) && name in ListDir(fs, dir)
    ensures var child := Join(dir, Path(false, [name]));
            && EntryAt(fs, child) < EntryAt(fs, dir)
            && WalkChild(EntryAt(fs, dir), dir, name) == Leaves(fs, child)
  {
    Child(fs, dir, name);
  }

  /** The `k`-th name of the sorted listing is a name of the listing. */
  lemma SortedName(fs: FileSystem, dir: Path, k: nat)
    requires WellFormed(fs) && IsDir(fs, dir) && k < |ListDir(fs, dir)|
    ensures k < |Sort(ListDir(fs, dir))| && Sort(ListDir(fs, dir))[k] in ListDir(fs, dir)
  {
    SortedListing(EntryAt(fs, dir));
  }

  /** A directory is never indexed itself: every path the walk reaches is a
      non-directory. */
  lemma LeavesAreFiles(fs: FileSystem, p: Path)
    requires WellFormed(fs)
    ensures forall l :: l in Leaves(fs, p) ==> !IsDir(fs, l)
  {
    forall l | l in Leaves(fs, p) ensures !IsDir(fs, l) {
      LeafIsFile(fs, p, l);
    }
  }

  lemma {:induction false} LeafIsFile(fs: FileSystem, p: Path, l: Path)
    requires WellFormed(fs) && l in Leaves(fs, p)
    ensures !IsDir(fs, l)
    decreases EntryAt(fs, p), 1
  {
    if IsDir(fs, p) {
      var names := Sort(ListDir(fs, p));
      var k := WalkUpToMember(EntryAt(fs, p), p, names, |names|, l);
      SortedName(fs, p, k);
      ChildLeafIsFile(fs, p, names[k], l);
    }
  }

  lemma {:induction false} ChildLeafIsFile(fs: FileSystem, dir: Path, name: string, l: Path)
    requires WellFormed(fs) && IsDir(fs, dir) && name in ListDir(fs, dir)
    requires l in WalkChild(EntryAt(fs, dir), dir, name)
    ensures !IsDir(fs, l)
    decreases EntryAt(fs, dir), 0
  {
    WalkChildLeaves(fs, dir, name);
    LeafIsFile(fs, Join(dir, Path(false, [name])), l);
  }

  /** A path the walk reaches through the first `i` names it reaches
      through one of them, name `k`. */
  lemma {:induction false} WalkUpToMember(e: Entry, dir: Path, names: seq<string>, i: nat, l: Path) returns (k: nat)
    requires e.Dir? && i <= |names| && l in WalkUpTo(e, dir, names, i)
    ensures k < i && l in WalkChild(e, dir, names[k])
  {
    if l in WalkUpTo(e, dir, names, i - 1) {
      k := WalkUpToMember(e, dir, names, i - 1, l);
    } else {
      k := i - 1;
    }
  }

  /** The walk stays below its starting point: the absolute form of every
      path it reaches extends that of `p`. */
  lemma LeavesBelow(fs: FileSystem, p: Path)
    requires WellFormed(fs)
    ensures forall l :: l in Leaves(fs, p) ==> IsPrefix(AbsPath(p, fs.cwd).parts, AbsPath(l, fs.cwd).parts)
  {
    forall l | l in Leaves(fs, p) ensures IsPrefix(AbsPath(p, fs.cwd).parts, AbsPath(l, fs.cwd).parts) {
      LeafBelow(fs, p, l);
    }
  }

  lemma {:induction false} LeafBelow(fs: FileSystem, p: Path, l: Path)
    requires WellFormed(fs) && l in Leaves(fs, p)
    ensures IsPrefix(AbsPath(p, fs.cwd).parts, AbsPath(l, fs.cwd).parts)
    decreases EntryAt(fs, p), 1
  {
    if IsDir(fs, p) {
      var names := Sort(ListDir(fs, p));
      var k := WalkUpToMember(EntryAt(fs, p), p, names, |names|, l);
      SortedName(fs, p, k);
      ChildLeafBelow(fs, p, names[k], l);
    } else {
      assert IsPrefix(AbsPath(p, fs.cwd).parts, AbsPath(p, fs.cwd).parts);
    }
  }

  lemma {:induction false} ChildLeafBelow(fs: FileSystem, dir: Path, name: string, l: Path)
    requires WellFormed(fs) && IsDir(fs, dir) && name in ListDir(fs, dir)
    requires l in WalkChild(EntryAt(fs, dir), dir, name)
    ensures IsPrefix(AbsPath(dir, fs.cwd).parts, AbsPath(l, fs.cwd).parts)
    decreases EntryAt(fs, dir), 0
  {
    var child := Join(dir, Path(false, [name]));
    WalkChildLeaves(fs, dir, name);
    LeafBelow(fs, child, l);
    ChildBelow(fs, dir, name);
    PrefixTrans(AbsPath(dir, fs.cwd).parts, AbsPath(child, fs.cwd).parts, AbsPath(l, fs.cwd).parts);
  }

  /** A listed name joined onto a directory lies one level below it. */
  lemma ChildBelow(fs: FileSystem, dir: Path, name: string)
    requires WellFormed(fs) && IsDir(fs, dir) && name in ListDir(fs, dir)
    ensures IsPrefix(AbsPath(dir, fs.cwd).parts, AbsPath(Join(dir, Path(false, [name])), fs.cwd).parts)
  {
    var d := AbsPath(dir, fs.cwd).parts;
    Child(fs, dir, name);
    AbsJoinName(dir, name, fs.cwd);
    assert (d + [name])[..|d|] == d;
  }

  predicate IsPrefix(a: seq<string>, b: seq<string>)
  {
    |a| <= |b| && b[..|a|] == a
  }

  lemma PrefixTrans(a: seq<string>, b: seq<string>, c: seq<string>)
    requires IsPrefix(a, b) && IsPrefix(b, c)
    ensures IsPrefix(a, c)
  {
    assert c[..|a|] == c[..|b|][..|a|];
  }

  // What a search returns ------------------------------------------------

  /** `ranking` is an order in which the search engine may return the
      documents of `docs` that the parsed query `matches` selects (a query
      may test any field of a document, not only its content): each
      matching document exactly once, nothing else. */
  predicate IsRanking(docs: seq<Document>, matches: Document -> bool, ranking: seq<nat>)
  {
    && (forall k :: 0 <= k < |ranking| ==> ranking[k] < |docs| && matches(docs[ranking[k]]))
    && (forall k, l :: 0 <= k < l < |ranking| ==> ranking[k] != ranking[l])
    && (forall i :: 0 <= i < |docs| && matches(docs[i]) ==> i in ranking)
  }

  /** How many hits a search with an optional `limit` returns out of
      `count`. */
  function Limited(count: nat, limit: Option<nat>): nat
  {
    if limit.Some? && limit.value < count then limit.value else count
  }

  /** The first `n` hits of `ranking`, each turned back into a `Result`. */
  function Hits(root: Path, docs: seq<Document>, ranking: seq<nat>, n: nat): seq<Result>
    requires n <= |ranking|
    requires forall k :: 0 <= k < |ranking| ==> ranking[k] < |docs|
  {
    seq(n, k requires 0 <= k < n => Reconstitute(root, docs[ranking[k]]))
  }

  lemma HitsSnoc(root: Path, docs: seq<Document>, ranking: seq<nat>, n: nat)
    requires n < |ranking|
    requires forall k :: 0 <= k < |ranking| ==> ranking[k] < |docs|
    ensures Hits(root, docs, ranking, n + 1) == Hits(root, docs, ranking, n) + [Reconstitute(root, docs[ranking[n]])]
  {
  }

  /** Every search result is a matching document, reconstituted. */
  lemma HitsSound(root: Path, docs: seq<Document>, matches: Document -> bool, ranking: seq<nat>, n: nat)
    requires IsRanking(docs, matches, ranking) && n <= |ranking|
    ensures forall r :: r in Hits(root, docs, ranking, n) ==>
              exists i :: 0 <= i < |docs| && matches(docs[i]) && r == Reconstitute(root, docs[i])
  {
    var hits := Hits(root, docs, ranking, n);
    forall r | r in hits
      ensures exists i :: 0 <= i < |docs| && matches(docs[i]) && r == Reconstitute(root, docs[i])
    {
      var k :| 0 <= k < |hits| && hits[k] == r;
      assert matches(docs[ranking[k]]);
    }
  }

  /** A search the limit does not cut short returns every matching
      document. */
  lemma HitsComplete(root: Path, docs: seq<Document>, matches: Document -> bool, ranking: seq<nat>, limit: Option<nat>)
    requires IsRanking(docs, matches, ranking)
    requires limit.None? || |ranking| <= limit.value
    ensures forall i :: 0 <= i < |docs| && matches(docs[i]) ==>
              Reconstitute(root, docs[i]) in Hits(root, docs, ranking, Limited(|ranking|, limit))
  {
    var hits := Hits(root, docs, ranking, Limited(|ranking|, limit));
    forall i | 0 <= i < |docs| && matches(docs[i])
      ensures Reconstitute(root, docs[i]) in hits
    {
      var k :| 0 <= k < |ranking| && ranking[k] == i;
      assert hits[k] == Reconstitute(root, docs[i]);
    }
  }

  // What adding does to the index -----------------------------------------

  /** Whether an `add` returned normally, and the documents it committed. */
  datatype Outcome = Outcome(ok: bool, added: seq<Document>)

  /** What adding one non-directory path does. */
  type Adder = Path -> Outcome

  /** Adding one file: the subtitles are read from the path as given; when
      reading raises, nothing is committed. */
  function AddFile(read: Reader, cwd: Path, root: Path, relative: bool, p: Path): (o: Outcome)
    requires cwd.absolute
    ensures o.ok <==> read(p).Some?
    ensures o.ok ==> o.added == FileDocuments(StoredPath(cwd, root, relative, p), read(p).value)
    ensures !o.ok ==> o.added == []
  {
    match read(p)
    case None => Outcome(false, [])
    case Some(evs) => Outcome(true, FileDocuments(StoredPath(cwd, root, relative, p), evs))
  }

  /** `AddFile` for a fixed reader, working directory, index root and
      policy. */
  function FileAdder(read: Reader, cwd: Path, root: Path, relative: bool): Adder
    requires cwd.absolute
  {
    p => AddFile(read, cwd, root, relative, p)
  }

  /** Adding the files `leaves` one after the other: the first file that
      fails ends the walk, and what the earlier files committed stays. */
  function AddLeaves(add: Adder, leaves: seq<Path>): Outcome
  {
    if leaves == [] then Outcome(true, [])
    else Then(add(leaves[0]), AddLeaves(add, leaves[1..]))
  }

  lemma {:induction false} AddLeavesAppend(add: Adder, a: seq<Path>, b: seq<Path>)
    ensures AddLeaves(add, a + b) == Then(AddLeaves(add, a), AddLeaves(add, b))
    decreases |a|
  {
    if a == [] {
      assert a + b == b;
    } else {
      assert (a + b)[0] == a[0] && (a + b)[1..] == a[1..] + b;
      AddLeavesAppend(add, a[1..], b);
      ThenAssoc(add(a[0]), AddLeaves(add, a[1..]), AddLeaves(add, b));
    }
  }

  lemma ThenAssoc(a: Outcome, b: Outcome, c: Outcome)
    ensures Then(a, Then(b, c)) == Then(Then(a, b), c)
  {
    if a.ok && b.ok {
      assert a.added + (b.added + c.added) == (a.added + b.added) + c.added;
    }
  }

  /** The documents of each file in turn, when every file is added without
      raising. */
  function AllDocuments(add: Adder, leaves: seq<Path>): seq<Document>
    requires forall j :: 0 <= j < |leaves| ==> add(leaves[j]).ok
  {
    if leaves == [] then [] else add(leaves[0]).added + AllDocuments(add, leaves[1..])
  }

  /** A walk whose files all read commits every file's documents, file by
      file; a walk whose `k`-th file is the first that fails raises and
      leaves exactly what files `0 .. k-1` committed. */
  lemma {:induction false} AddLeavesStopsAtFailure(add: Adder, leaves: seq<Path>, k: nat)
    requires k <= |leaves|
    requires forall j :: 0 <= j < k ==> add(leaves[j]).ok
    ensures AddLeaves(add, leaves[..k]) == Outcome(true, AllDocuments(add, leaves[..k]))
    ensures k < |leaves| && !add(leaves[k]).ok ==>
            AddLeaves(add, leaves) == Outcome(false, AllDocuments(add, leaves[..k]) + add(leaves[k]).added)
    decreases k
  {
    if k > 0 {
      assert leaves[..k][0] == leaves[0] && leaves[..k][1..] == leaves[1..][..k - 1];
      AddLeavesStopsAtFailure(add, leaves[1..], k - 1);
    } else {
      assert leaves[..k] == [];
    }
  }

  /** Adding one part of a walk after another: the second part runs only
      when the first returned normally. */
  function Then(a: Outcome, b: Outcome): (r: Outcome)
    ensures !a.ok ==> r == a
    ensures a.ok ==> r.ok == b.ok && r.added == a.added + b.added
  {
    if a.ok then Outcome(b.ok, a.added + b.added) else a
  }

  /** Adding the entry `e` found at `p`, as `add` does: a directory through
      its names in sorted order, anything else as one file. */
  function AddEntry(add: Adder, e: Entry, p: Path): Outcome
    decreases e, 2
  {
    if e.Dir? then
      var names := Sort(Listing(e));
      AddEntries(add, e, p, names, |names|)
    else add(p)
  }

  /** The loop of `add_recursive` over the directory entry `e` at `dir`
      after the first `i` of `names`. */
  function AddEntries(add: Adder, e: Entry, dir: Path, names: seq<string>, i: nat): Outcome
    requires e.Dir? && i <= |names|
    decreases e, 1, i
  {
    if i == 0 then Outcome(true, [])
    else Then(AddEntries(add, e, dir, names, i - 1), AddNamed(add, e, dir, names[i - 1]))
  }

  /** Adding the entry `name` of `e`, joined onto `dir`. */
  function AddNamed(add: Adder, e: Entry, dir: Path, name: string): Outcome
    requires e.Dir?
    decreases e, 0
  {
    if Lists(e, name) then AddEntry(add, ChildEntry(e, name), Join(dir, Path(false, [name])))
    else Outcome(true, [])
  }

  /** Adding `p`, a file or a directory. */
  function AddPath(fs: FileSystem, add: Adder, p: Path): Outcome
    requires WellFormed(fs)
  {
    AddEntry(add, EntryAt(fs, p), p)
  }

  /** Adding an entry is adding the files the walk reaches from it, one
      after another. */
  lemma {:induction false} AddEntryLeaves(add: Adder, e: Entry, p: Path)
    ensures AddEntry(add, e, p) == AddLeaves(add, Walk(e, p))
    decreases e, 2
  {
    if e.Dir? {
      AddEntriesLeaves(add, e, p, Sort(Listing(e)), |Listing(e)|);
    } else {
      assert Walk(e, p) == [p] && [p][1..] == [];
      assert add(p).added + [] == add(p).added;
    }
  }

  lemma {:induction false} AddEntriesLeaves(add: Adder, e: Entry, dir: Path, names: seq<string>, i: nat)
    requires e.Dir? && i <= |names|
    ensures AddEntries(add, e, dir, names, i) == AddLeaves(add, WalkUpTo(e, dir, names, i))
    decreases e, 1, i
  {
    if i > 0 {
      var name := names[i - 1];
      AddEntriesLeaves(add, e, dir, names, i - 1);
      if Lists(e, name) {
        AddEntryLeaves(add, ChildEntry(e, name), Join(dir, Path(false, [name])));
      }
      AddLeavesAppend(add, WalkUpTo(e, dir, names, i - 1), WalkChild(e, dir, name));
    }
  }

  /** Adding `p` is adding the files the walk reaches from `p`. */
  lemma AddPathLeaves(fs: FileSystem, add: Adder, p: Path)
    requires WellFormed(fs)
    ensures AddPath(fs, add, p) == AddLeaves(add, Leaves(fs, p))
  {
    AddEntryLeaves(add, EntryAt(fs, p), p);
  }

  /** Once an entry raised, the loop's outcome no longer changes. */
  lemma {:induction false} AddEntriesStays(add: Adder, e: Entry, dir: Path, names: seq<string>, i: nat, j: nat)
    requires e.Dir? && i <= j <= |names|
    requires !AddEntries(add, e, dir, names, i).ok
    ensures AddEntries(add, e, dir, names, j) == AddEntries(add, e, dir, names, i)
    decreases j
  {
    if j > i {
      AddEntriesStays(add, e, dir, names, i, j - 1);
    }
  }

  /** A loop that raised at name `i`, or that went through every name, has
      the outcome of its first `i` names. */
  lemma AddEntriesStop(add: Adder, e: Entry, dir: Path, i: nat)
    requires e.Dir? && i <= |Listing(e)|
    requires i == |Listing(e)| || !AddEntries(add, e, dir, Sort(Listing(e)), i).ok
    ensures AddEntry(add, e, dir) == AddEntries(add, e, dir, Sort(Listing(e)), i)
  {
    if i < |Listing(e)| {
      AddEntriesStays(add, e, dir, Sort(Listing(e)), i, |Listing(e)|);
    }
  }

  /** Name `i` of the sorted listing of the directory `p`, as `add` reaches
      it: its outcome is that of adding the joined path, which lies strictly
      below `p`. */
  lemma ChildStep(fs: FileSystem, add: Adder, p: Path, i: nat)
    requires WellFormed(fs) && IsDir(fs, p) && i < |ListDir(fs, p)|
    ensures var names := Sort(ListDir(fs, p));
            var full := Join(p, Path(false, [names[i]]));
            && EntryAt(fs, full) < EntryAt(fs, p)
            && AddEntries(add, EntryAt(fs, p), p, names, i + 1)
               == Then(AddEntries(add, EntryAt(fs, p), p, names, i), AddPath(fs, add, full))
  {
    SortedListing(EntryAt(fs, p));
    Child(fs, p, Sort(ListDir(fs, p))[i]);
  }

  /** One more name added: the documents committed so far grow by what the
      joined path commits, as the outcome of the first `i + 1` names says. */
  lemma AddEntriesNext(fs: FileSystem, add: Adder, p: Path, i: nat,
                       start: seq<Document>, mid: seq<Document>, end: seq<Document>, ok: bool)
    requires WellFormed(fs) && IsDir(fs, p) && i < |ListDir(fs, p)|
    requires var a := AddEntries(add, EntryAt(fs, p), p, Sort(ListDir(fs, p)), i);
             a.ok && mid == start + a.added
    requires var b := AddPath(fs, add, Join(p, Path(false, [Sort(ListDir(fs, p))[i]])));
             ok == b.ok && end == mid + b.added
    ensures var c := AddEntries(add, EntryAt(fs, p), p, Sort(ListDir(fs, p)), i + 1);
            ok == c.ok && end == start + c.added
  {
    ChildStep(fs, add, p, i);
    ThenCommits(AddEntries(add, EntryAt(fs, p), p, Sort(ListDir(fs, p)), i),
                AddPath(fs, add, Join(p, Path(false, [Sort(ListDir(fs, p))[i]]))), start, mid, end, ok);
  }

  /** Documents committed by one outcome and then by the next are those
      their sequence commits. */
  lemma ThenCommits(a: Outcome, b: Outcome, start: seq<Document>, mid: seq<Document>, end: seq<Document>, ok: bool)
    requires a.ok && mid == start + a.added
    requires ok == b.ok && end == mid + b.added
    ensures ok == Then(a, b).ok && end == start + Then(a, b).added
  {
    assert end == start + (a.added + b.added);
  }
}
