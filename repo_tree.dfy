/** The remote repository as the two stages see it through the contents API: a
    listing per directory path and a text per file path. A path missing from either
    map is a call that fails (an exception in the program, `None` here). Also the
    breadth-first worklist shared by the scanner and the models-directory search. */
module RepoTree {
  import opened Wrappers
  import opened Text

  /** The `type` field of a listing entry. */
  datatype Kind = FileKind | DirKind | OtherKind

  /** One listing entry: `name`, repository-relative `path`, `type`. */
  datatype Item = Item(name: string, path: string, kind: Kind)

  /** Path of the entry `name` inside directory `dir` ("" is the root). */
  function ChildPath(dir: string, name: string): (r: string)
    ensures |r| >= |name|
  {
    if dir == "" then name else dir + "/" + name
  }

  /** One repository at one branch. */
  datatype Tree = Tree(listings: map<string, seq<Item>>, contents: map<string, string>) {

    /** `list_repo_files`: the entries of a directory, or `None` when the call fails. */
    function List(path: string): Option<seq<Item>> {
      if path in listings then Some(listings[path]) else None
    }

    /** `read_repo_file`: the decoded text of a file, or `None` when the call fails. */
    function Read(path: string): Option<string> {
      if path in contents then Some(contents[path]) else None
    }

    /** Listings have the shape the contents API gives them: every entry's path is
        its directory's path joined with its non-empty, slash-free name. */
    ghost predicate Valid() {
      forall dir, it :: dir in listings && it in listings[dir] ==>
        it.name != "" && '/' !in it.name && it.path == ChildPath(dir, it.name)
    }
  }

  /** All repositories and branches the stages may ask about. */
  datatype Remote = Remote(trees: map<(string, string), Tree>) {
    /** An unknown repository or branch answers every call with a failure. */
    function TreeOf(repo: string, branch: string): Tree {
      if (repo, branch) in trees then trees[(repo, branch)] else Tree(map[], map[])
    }
  }

  /** `name.startswith(".")` */
  predicate Hidden(name: string) {
    StartsWith(name, ".")
  }

  /** Whether a traversal appends this entry to its queue: directories only, and
      when `skipHidden` holds, not those whose name starts with a dot. */
  predicate Enqueues(it: Item, skipHidden: bool) {
    it.kind == DirKind && !(skipHidden && Hidden(it.name))
  }

  /** The paths one listing appends to the queue, in listing order. */
  function ChildDirs(items: seq<Item>, skipHidden: bool): seq<string>
    decreases |items|
  {
    if items == [] then []
    else (if Enqueues(items[0], skipHidden) then [items[0].path] else []) + ChildDirs(items[1..], skipHidden)
  }

  lemma {:induction false} ChildDirsMember(items: seq<Item>, skipHidden: bool, v: string)
    ensures v in ChildDirs(items, skipHidden) <==> exists it :: it in items && Enqueues(it, skipHidden) && it.path == v
    decreases |items|
  {
    if items != [] {
      ChildDirsMember(items[1..], skipHidden, v);
      assert forall it :: it in items <==> it == items[0] || it in items[1..];
    }
  }

  /** The queue after one step: pop the front, list it, append what it enqueues.
      A failed listing appends nothing. */
  function Next(t: Tree, q: seq<string>, skipHidden: bool): seq<string>
    requires q != []
  {
    q[1..] + (match t.List(q[0]) case Some(items) => ChildDirs(items, skipHidden) case None => [])
  }

  /** Listed paths at least as long as `p`; strictly shrinks from a directory to
      each entry below it. */
  ghost function Above(t: Tree, p: string): set<string> {
    set k | k in t.listings && |k| >= |p|
  }

  /** Number of queue pops that a queued path causes, itself included. */
  ghost function Weight(t: Tree, p: string, skipHidden: bool): nat
    requires t.Valid()
    decreases Above(t, p), 1
  {
    1 + (if p in t.listings then ChildWeight(t, p, t.listings[p], skipHidden) else 0)
  }

  ghost function ChildWeight(t: Tree, dir: string, items: seq<Item>, skipHidden: bool): nat
    requires t.Valid() && dir in t.listings
    requires forall it :: it in items ==> |it.path| > |dir|
    decreases Above(t, dir), 0, |items|
  {
    if items == [] then 0
    else
      var c := items[0].path;
      assert dir in Above(t, dir) && dir !in Above(t, c);
      assert Above(t, c) <= Above(t, dir);
      (if Enqueues(items[0], skipHidden) then Weight(t, c, skipHidden) else 0)
      + ChildWeight(t, dir, items[1..], skipHidden)
  }

  ghost function QWeight(t: Tree, q: seq<string>, skipHidden: bool): nat
    requires t.Valid()
    decreases |q|
  {
    if q == [] then 0 else Weight(t, q[0], skipHidden) + QWeight(t, q[1..], skipHidden)
  }

  lemma {:induction false} QWeightAppend(t: Tree, a: seq<string>, b: seq<string>, skipHidden: bool)
    requires t.Valid()
    ensures QWeight(t, a + b, skipHidden) == QWeight(t, a, skipHidden) + QWeight(t, b, skipHidden)
    decreases |a|
  {
    if a != [] {
      assert (a + b)[1..] == a[1..] + b;
      QWeightAppend(t, a[1..], b, skipHidden);
    } else {
      assert a + b == b;
    }
  }

  lemma {:induction false} ChildWeightIsQWeight(t: Tree, dir: string, items: seq<Item>, skipHidden: bool)
    requires t.Valid() && dir in t.listings
    requires forall it :: it in items ==> |it.path| > |dir|
    ensures ChildWeight(t, dir, items, skipHidden) == QWeight(t, ChildDirs(items, skipHidden), skipHidden)
    decreases |items|
  {
    if items != [] {
      ChildWeightIsQWeight(t, dir, items[1..], skipHidden);
      var head := if Enqueues(items[0], skipHidden) then [items[0].path] else [];
      QWeightAppend(t, head, ChildDirs(items[1..], skipHidden), skipHidden);
    }
  }

  /** Every pop shrinks the remaining work by exactly one: the traversal ends. */
  lemma NextDecreases(t: Tree, q: seq<string>, skipHidden: bool)
    requires t.Valid() && q != []
    ensures QWeight(t, Next(t, q, skipHidden), skipHidden) == QWeight(t, q, skipHidden) - 1
  {
    var p := q[0];
    if p in t.listings {
      var items := t.listings[p];
      assert forall it :: it in items ==> |it.path| > |p|;
      ChildWeightIsQWeight(t, p, items, skipHidden);
      QWeightAppend(t, q[1..], ChildDirs(items, skipHidden), skipHidden);
    } else {
      assert Next(t, q, skipHidden) == q[1..];
    }
  }

  /** The order in which a FIFO traversal starting from queue `q` pops, and so
      lists, directories. */
  function Visits(t: Tree, q: seq<string>, skipHidden: bool): seq<string>
    requires t.Valid()
    decreases QWeight(t, q, skipHidden)
  {
    if q == [] then []
    else
      NextDecreases(t, q, skipHidden);
      [q[0]] + Visits(t, Next(t, q, skipHidden), skipHidden)
  }

  /** FIFO: every path already queued is listed, in queue order, before anything
      enqueued later; a failed listing removes only its own path. */
  lemma {:induction false} VisitsKeepQueueOrder(t: Tree, q: seq<string>, skipHidden: bool)
    requires t.Valid()
    ensures q <= Visits(t, q, skipHidden)
    decreases QWeight(t, q, skipHidden)
  {
    if q != [] {
      NextDecreases(t, q, skipHidden);
      var n := Next(t, q, skipHidden);
      VisitsKeepQueueOrder(t, n, skipHidden);
      assert q[1..] <= n;
      assert q == [q[0]] + q[1..];
    }
  }

  /** Every listed path was queued at the start or was enqueued from the listing of
      a directory listed in the same traversal. */
  lemma {:induction false} VisitsProvenance(t: Tree, q: seq<string>, skipHidden: bool, v: string)
    requires t.Valid()
    requires v in Visits(t, q, skipHidden)
    ensures v in q ||
      (exists d, it :: d in Visits(t, q, skipHidden) && d in t.listings &&
         it in t.listings[d] && Enqueues(it, skipHidden) && it.path == v)
    decreases QWeight(t, q, skipHidden)
  {
    NextDecreases(t, q, skipHidden);
    var n := Next(t, q, skipHidden);
    var vs := Visits(t, q, skipHidden);
    assert vs == [q[0]] + Visits(t, n, skipHidden);
    if v != q[0] {
      assert v in Visits(t, n, skipHidden);
      VisitsProvenance(t, n, skipHidden, v);
      if v in n {
        if v !in q[1..] {
          var items := t.listings[q[0]];
          assert v in ChildDirs(items, skipHidden);
          ChildDirsMember(items, skipHidden, v);
          assert q[0] in vs;
        }
      } else {
        forall d | d in Visits(t, n, skipHidden) ensures d in vs { }
      }
    }
  }

  /** A traversal runs to the end: every entry a listed directory enqueues is itself
      listed later in the same traversal. */
  lemma {:induction false} VisitsClosed(t: Tree, q: seq<string>, skipHidden: bool, d: string, it: Item)
    requires t.Valid()
    requires d in Visits(t, q, skipHidden) && d in t.listings && it in t.listings[d]
    requires Enqueues(it, skipHidden)
    ensures it.path in Visits(t, q, skipHidden)
    decreases QWeight(t, q, skipHidden)
  {
    NextDecreases(t, q, skipHidden);
    var n := Next(t, q, skipHidden);
    assert Visits(t, q, skipHidden) == [q[0]] + Visits(t, n, skipHidden);
    if d == q[0] {
      ChildDirsMember(t.listings[d], skipHidden, it.path);
      assert it.path in n;
      VisitsKeepQueueOrder(t, n, skipHidden);
    } else {
      VisitsClosed(t, n, skipHidden, d, it);
    }
  }

  /** The name at the end of a path is determined by the path: two entries with the
      same path have the same name and the same directory. */
  lemma SameChildPath(d1: string, n1: string, d2: string, n2: string)
    requires '/' !in n1 && '/' !in n2
    requires ChildPath(d1, n1) == ChildPath(d2, n2)
    ensures n1 == n2 && d1 == d2
  {
    var s := ChildPath(d1, n1);
    if d1 == "" || d2 == "" {
      SlashAfterDir(d1, n1);
      SlashAfterDir(d2, n2);
    } else {
      SlashAfterDir(d1, n1);
      SlashAfterDir(d2, n2);
      assert |d1| == |d2|;
      assert d1 == s[..|d1|] == d2;
      assert n1 == s[|d1| + 1..] == n2;
    }
  }

  /** The last slash of a non-root path separates the directory from the name. */
  lemma SlashAfterDir(d: string, n: string)
    requires '/' !in n
    ensures d == "" ==> ChildPath(d, n) == n
    ensures d != "" ==> ChildPath(d, n)[|d|] == '/'
    ensures d != "" ==> forall j :: |d| < j < |ChildPath(d, n)| ==> ChildPath(d, n)[j] != '/'
  {
    if d != "" {
      var s := d + "/" + n;
      assert forall j :: |d| < j < |s| ==> s[j] == n[j - |d| - 1];
    }
  }

  /** If an entry's path lies under directory `h`, its own directory is `h` or lies
      under `h`. */
  lemma ParentUnder(d: string, n: string, h: string)
    requires '/' !in n
    requires StartsWith(ChildPath(d, n), h + "/")
    ensures d == h || StartsWith(d, h + "/")
  {
    var s := ChildPath(d, n);
    assert s[|h|] == (h + "/")[|h|] == '/';
    assert forall j :: |s| - |n| <= j < |s| ==> s[j] == n[j - (|s| - |n|)];
    assert d != "";
    assert s == d + "/" + n;
    assert |h| <= |d|;
    if |h| == |d| {
      assert d == s[..|d|] == h;
    } else {
      assert d[..|h| + 1] == s[..|h| + 1] == h + "/";
    }
  }
}
