/** The file system as the index sees it through `os.path.isdir` and
    `os.listdir`, and Python's `sorted` on the names a listing returns. */
module FileTree {
  import opened Options
  import opened Paths

  /** A directory's listing keeps the order the operating system returns,
      which is arbitrary. */
  datatype Entry = File | Dir(entries: seq<Named>)
  datatype Named = Named(name: string, entry: Entry)

  /** The tree below `/` and the process's working directory. */
  datatype FileSystem = FileSystem(root: Entry, cwd: Path)

  /** Every entry name is a proper file name, all the way down, as
      `os.listdir` returns them (never `""`, `.` or `..`). */
  predicate WellFormedEntry(e: Entry)
  {
    match e
    case File => true
    case Dir(es) => forall k :: 0 <= k < |es| ==> IsName(es[k].name) && WellFormedEntry(es[k].entry)
  }

  predicate WellFormed(fs: FileSystem)
  {
    fs.cwd.absolute && WellFormedEntry(fs.root)
  }

  /** The index of the first entry called `name`, if there is one. */
  function Find(es: seq<Named>, name: string): (k: nat)
    ensures k <= |es|
    ensures k < |es| ==> es[k].name == name
    ensures forall j :: 0 <= j < k ==> es[j].name != name
  {
    if es == [] then 0
    else if es[0].name == name then 0
    else 1 + Find(es[1..], name)
  }

  /** What the operating system finds at the components `parts` of an
      absolute path, from the directory `e` reached through the directories
      `up`: any component after a file fails, even an empty one or `.`; an
      empty component and `.` stay where they are; `..` goes back to the
      directory the walk came from, and stays put at the root; a name goes
      into the first entry of that name, and fails when there is none. */
  function Resolve(up: seq<Entry>, e: Entry, parts: seq<string>): Option<Entry>
    decreases |parts|
  {
    if parts == [] then Some(e)
    else match e
      case File => None
      case Dir(es) =>
        var c := parts[0];
        if c == "" || c == "." then Resolve(up, e, parts[1..])
        else if c == ".." then
          if up == [] then Resolve(up, e, parts[1..])
          else Resolve(up[..|up| - 1], up[|up| - 1], parts[1..])
        else
          var k := Find(es, c);
          if k == |es| then None else Resolve(up + [e], es[k].entry, parts[1..])
  }

  /** What lies at `p`, resolved from the root along `p` joined onto the
      working directory; a path that does not resolve counts as a
      non-directory, as it does for `os.path.isdir`. */
  function EntryAt(fs: FileSystem, p: Path): Entry
    requires fs.cwd.absolute
  {
    match Resolve([], fs.root, Join(fs.cwd, p).parts)
    case Some(e) => e
    case None => File
  }

  /** `os.path.isdir(p)`. */
  predicate IsDir(fs: FileSystem, p: Path)
    requires fs.cwd.absolute
  {
    EntryAt(fs, p).Dir?
  }

  /** The names in a directory entry, in listing order. */
  function Listing(e: Entry): (names: seq<string>)
    requires e.Dir?
    ensures |names| == |e.entries|
    ensures forall k :: 0 <= k < |names| ==> names[k] == e.entries[k].name
  {
    Names(e.entries)
  }

  function Names(es: seq<Named>): (names: seq<string>)
    ensures |names| == |es|
    ensures forall k :: 0 <= k < |names| ==> names[k] == es[k].name
  {
    if es == [] then [] else [es[0].name] + Names(es[1..])
  }

  /** `os.listdir(p)` for a directory `p`. */
  function ListDir(fs: FileSystem, p: Path): seq<string>
    requires fs.cwd.absolute && IsDir(fs, p)
  {
    Listing(EntryAt(fs, p))
  }

  /** Whether the directory entry `e` has an entry called `name`. */
  predicate Lists(e: Entry, name: string)
    requires e.Dir?
  {
    Find(e.entries, name) < |e.entries|
  }

  /** A name of the listing is an entry of the directory. */
  lemma ListedLists(e: Entry, name: string)
    requires e.Dir? && name in Listing(e)
    ensures Lists(e, name)
  {
    var j :| 0 <= j < |Listing(e)| && Listing(e)[j] == name;
    assert e.entries[j].name == name;
  }

  /** The entry a name of a directory entry leads to: the first entry of
      that name. */
  function ChildEntry(e: Entry, name: string): (c: Entry)
    requires e.Dir? && Lists(e, name)
    ensures c < e
  {
    e.entries[Find(e.entries, name)].entry
  }

  /** One more name after a path goes into the directory found there. */
  lemma {:induction false} ResolveName(up: seq<Entry>, e: Entry, parts: seq<string>, name: string)
    requires IsName(name)
    ensures Resolve(up, e, parts + [name]) ==
      match Resolve(up, e, parts)
      case Some(Dir(es)) =>
        var k := Find(es, name);
        if k == |es| then None else Some(es[k].entry)
      case _ => None
    decreases |parts|
  {
    if parts != [] {
      assert (parts + [name])[1..] == parts[1..] + [name] && (parts + [name])[0] == parts[0];
      match e
      case File =>
      case Dir(es) =>
        var c := parts[0];
        if c == "" || c == "." || (c == ".." && up == []) {
          ResolveName(up, e, parts[1..], name);
        } else if c == ".." {
          ResolveName(up[..|up| - 1], up[|up| - 1], parts[1..], name);
        } else {
          var k := Find(es, c);
          if k < |es| {
            ResolveName(up + [e], es[k].entry, parts[1..], name);
          }
        }
    }
  }

  /** An empty last component (a trailing `/`) keeps a directory and fails
      after anything else. */
  lemma {:induction false} ResolveEmpty(up: seq<Entry>, e: Entry, parts: seq<string>)
    ensures Resolve(up, e, parts + [""]) ==
      match Resolve(up, e, parts)
      case Some(Dir(es)) => Some(Dir(es))
      case _ => None
    decreases |parts|
  {
    if parts != [] {
      assert (parts + [""])[1..] == parts[1..] + [""] && (parts + [""])[0] == parts[0];
      match e
      case File =>
      case Dir(es) =>
        var c := parts[0];
        if c == "" || c == "." || (c == ".." && up == []) {
          ResolveEmpty(up, e, parts[1..]);
        } else if c == ".." {
          ResolveEmpty(up[..|up| - 1], up[|up| - 1], parts[1..]);
        } else {
          var k := Find(es, c);
          if k < |es| {
            ResolveEmpty(up + [e], es[k].entry, parts[1..]);
          }
        }
    }
  }

  /** Dropping a trailing empty component from a path that leads to a
      directory leads to the same directory. */
  lemma ResolveDropTrailing(up: seq<Entry>, e: Entry, parts: seq<string>)
    requires Resolve(up, e, parts).Some? && Resolve(up, e, parts).value.Dir?
    ensures Resolve(up, e, DropTrailingEmpty(parts)) == Resolve(up, e, parts)
  {
    if parts != [] && parts[|parts| - 1] == "" {
      var d := parts[..|parts| - 1];
      assert parts == d + [""];
      ResolveEmpty(up, e, d);
    }
  }

  /** From well-formed directories, resolution only reaches well-formed
      entries. */
  lemma {:induction false} ResolveWellFormed(up: seq<Entry>, e: Entry, parts: seq<string>)
    requires WellFormedEntry(e) && forall k :: 0 <= k < |up| ==> WellFormedEntry(up[k])
    ensures Resolve(up, e, parts).Some? ==> WellFormedEntry(Resolve(up, e, parts).value)
    decreases |parts|
  {
    if parts != [] {
      match e
      case File =>
      case Dir(es) =>
        var c := parts[0];
        if c == "" || c == "." || (c == ".." && up == []) {
          ResolveWellFormed(up, e, parts[1..]);
        } else if c == ".." {
          ResolveWellFormed(up[..|up| - 1], up[|up| - 1], parts[1..]);
        } else {
          var k := Find(es, c);
          if k < |es| {
            ResolveWellFormed(up + [e], es[k].entry, parts[1..]);
          }
        }
    }
  }

  /** `..` is resolved through the tree, not by dropping the component
      before it: with one file `f` in `/` as the working directory,
      `isdir("f/..")` and `isdir("nosuch/..")` are false, while
      `isdir("./")` is true. */
  lemma DotDotResolved()
    ensures var fs := FileSystem(Dir([Named("f", File)]), Path(true, []));
            && !IsDir(fs, Path(false, ["f", ".."]))
            && !IsDir(fs, Path(false, ["nosuch", ".."]))
            && !IsDir(fs, Path(false, ["f", ""]))
            && IsDir(fs, Path(false, [".", ""]))
  {
    var es := [Named("f", File)];
    assert Find(es, "f") == 0;
    assert Find(es, "nosuch") == 1 by {
      assert es[0].name != "nosuch";
      assert es[1..] == [];
    }
  }

  /** The entry reached by joining a listed name onto a directory is the
      first entry of that name in the directory's listing: strictly smaller
      than the directory, which is what makes the recursive walk end. */
  lemma Child(fs: FileSystem, dir: Path, name: string)
    requires WellFormed(fs) && IsDir(fs, dir) && name in ListDir(fs, dir)
    ensures IsName(name) && Lists(EntryAt(fs, dir), name)
    ensures EntryAt(fs, Join(dir, Path(false, [name]))) == ChildEntry(EntryAt(fs, dir), name)
    ensures EntryAt(fs, Join(dir, Path(false, [name]))) < EntryAt(fs, dir)
  {
    var es := EntryAt(fs, dir).entries;
    var j :| 0 <= j < |ListDir(fs, dir)| && ListDir(fs, dir)[j] == name;
    var q := Join(fs.cwd, dir).parts;
    ResolveWellFormed([], fs.root, q);
    assert IsName(name) by {
      assert es[j].name == name;
    }
    var d := if !dir.absolute && dir.parts == [] then q else DropTrailingEmpty(q);
    JoinNameParts(fs.cwd, dir, name);
    ResolveDropTrailing([], fs.root, q);
    ResolveName([], fs.root, d, name);
    assert Find(es, name) <= j;
  }

  // Python's `sorted` on strings ---------------------------------------------

  /** Python's `<=` on `str`: code point by code point, a proper prefix
      first. */
  predicate LexLe(a: string, b: string)
    decreases |a|
  {
    a == [] || (b != [] && (a[0] < b[0] || (a[0] == b[0] && LexLe(a[1..], b[1..]))))
  }

  lemma {:induction false} LexLeTotal(a: string, b: string)
    ensures LexLe(a, b) || LexLe(b, a)
    decreases |a|
  {
    if a != [] && b != [] && a[0] == b[0] {
      LexLeTotal(a[1..], b[1..]);
    }
  }

  lemma {:induction false} LexLeRefl(a: string)
    ensures LexLe(a, a)
    decreases |a|
  {
    if a != [] {
      LexLeRefl(a[1..]);
    }
  }

  lemma {:induction false} LexLeTrans(a: string, b: string, c: string)
    requires LexLe(a, b) && LexLe(b, c)
    ensures LexLe(a, c)
    decreases |a|
  {
    if a != [] && a[0] == b[0] && b[0] == c[0] {
      LexLeTrans(a[1..], b[1..], c[1..]);
    }
  }

  lemma {:induction false} LexLeAntisym(a: string, b: string)
    requires LexLe(a, b) && LexLe(b, a)
    ensures a == b
    decreases |a|
  {
    if a != [] {
      LexLeAntisym(a[1..], b[1..]);
      assert a == [a[0]] + a[1..] && b == [b[0]] + b[1..];
    }
  }

  predicate Sorted(s: seq<string>)
  {
    forall i, j :: 0 <= i < j < |s| ==> LexLe(s[i], s[j])
  }

  /** Puts `x` in front of the first element it is not above. */
  function Insert(x: string, s: seq<string>): (r: seq<string>)
    ensures |r| == |s| + 1
  {
    if s == [] then [x]
    else if LexLe(x, s[0]) then [x] + s
    else [s[0]] + Insert(x, s[1..])
  }

  lemma {:induction false} InsertPermutes(x: string, s: seq<string>)
    ensures multiset(Insert(x, s)) == multiset(s) + multiset{x}
  {
    if s != [] && !LexLe(x, s[0]) {
      InsertPermutes(x, s[1..]);
      assert s == [s[0]] + s[1..];
    }
  }

  lemma {:induction false} InsertSorted(x: string, s: seq<string>)
    requires Sorted(s)
    ensures Sorted(Insert(x, s))
  {
    if s == [] {
    } else if LexLe(x, s[0]) {
      assert forall j :: 0 <= j < |s| ==> LexLe(x, s[j]) by {
        forall j | 0 <= j < |s| ensures LexLe(x, s[j]) {
          if j > 0 { LexLeTrans(x, s[0], s[j]); }
        }
      }
      assert Insert(x, s) == [x] + s;
    } else {
      LexLeTotal(x, s[0]);
      SortedTail(s);
      InsertSorted(x, s[1..]);
      var t := Insert(x, s[1..]);
      InsertPermutes(x, s[1..]);
      assert s == [s[0]] + s[1..];
      assert forall j :: 0 <= j < |t| ==> LexLe(s[0], t[j]) by {
        forall j | 0 <= j < |t| ensures LexLe(s[0], t[j]) {
          assert t[j] in multiset(t);
          assert t[j] == x || t[j] in multiset(s[1..]);
          if t[j] != x {
            var m :| 0 <= m < |s[1..]| && s[1..][m] == t[j];
            assert s[1 + m] == t[j];
          }
        }
      }
      assert Insert(x, s) == [s[0]] + t;
    }
  }

  /** `sorted(s)`: a permutation of `s`, ascending by `SortSorted`. */
  function Sort(s: seq<string>): (r: seq<string>)
    ensures |r| == |s|
  {
    if s == [] then [] else Insert(s[0], Sort(s[1..]))
  }

  lemma {:induction false} SortPermutes(s: seq<string>)
    ensures multiset(Sort(s)) == multiset(s)
  {
    if s != [] {
      SortPermutes(s[1..]);
      InsertPermutes(s[0], Sort(s[1..]));
      assert s == [s[0]] + s[1..];
    }
  }

  lemma {:induction false} SortSorted(s: seq<string>)
    ensures Sorted(Sort(s))
  {
    if s != [] {
      SortSorted(s[1..]);
      InsertSorted(s[0], Sort(s[1..]));
    }
  }

  lemma SortedTail(a: seq<string>)
    requires Sorted(a) && a != []
    ensures Sorted(a[1..])
  {
    forall i, j | 0 <= i < j < |a| - 1 ensures LexLe(a[1..][i], a[1..][j]) {
      assert a[1..][i] == a[i + 1] && a[1..][j] == a[j + 1];
    }
  }

  lemma SortedHeadLeast(a: seq<string>, x: string)
    requires Sorted(a) && x in multiset(a)
    ensures LexLe(a[0], x)
  {
    var i :| 0 <= i < |a| && a[i] == x;
    if i == 0 { LexLeRefl(x); }
  }

  lemma SameTail(a: seq<string>, b: seq<string>)
    requires a != [] && b != [] && a[0] == b[0] && multiset(a) == multiset(b)
    ensures multiset(a[1..]) == multiset(b[1..])
  {
    assert a == [a[0]] + a[1..] && b == [b[0]] + b[1..];
    assert multiset(a) == multiset{a[0]} + multiset(a[1..]);
    assert multiset(b) == multiset{b[0]} + multiset(b[1..]);
    forall x ensures multiset(a[1..])[x] == multiset(b[1..])[x] {
      assert multiset(a)[x] == multiset{a[0]}[x] + multiset(a[1..])[x];
      assert multiset(b)[x] == multiset{b[0]}[x] + multiset(b[1..])[x];
    }
  }

  /** The sorted order is unique: two sorted permutations of the same names
      are equal, so the walk order is determined by the names alone. */
  lemma {:induction false} SortedUnique(a: seq<string>, b: seq<string>)
    requires Sorted(a) && Sorted(b) && multiset(a) == multiset(b)
    ensures a == b
    decreases |a|
  {
    assert |a| == |multiset(a)| == |multiset(b)| == |b|;
    if a != [] {
      assert a[0] in multiset(a) && b[0] in multiset(b);
      SortedHeadLeast(a, b[0]);
      SortedHeadLeast(b, a[0]);
      LexLeAntisym(a[0], b[0]);
      assert a == [a[0]] + a[1..] && b == [b[0]] + b[1..];
      SameTail(a, b);
      SortedTail(a);
      SortedTail(b);
      SortedUnique(a[1..], b[1..]);
    }
  }
}
