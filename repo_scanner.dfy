/** Stage 1: the breadth-first scan of a remote repository for controller files and
    their endpoints (`repo_scan_logic_github`). */
module RepoScanner {
  import opened Wrappers
  import opened Text
  import opened RepoTree
  import opened EndpointExtractor

  /** One summary entry: a controller file and the endpoints found in it. */
  datatype FileEndpoints = FileEndpoints(file: string, endpoints: seq<Endpoint>)

  /** The stage's result: `{"repo": ..., "endpoints_found": [...]}`. */
  datatype ScanResult = ScanResult(repo: string, endpointsFound: seq<FileEndpoints>)

  /** The traversal starts at the repository root. */
  const Root := ""

  /** The marker test: the text names either controller annotation. */
  predicate IsController(content: string) {
    Contains(content, "@RestController") || Contains(content, "@Controller")
  }

  /** Only `file` entries whose name ends in `.java` are read. */
  predicate IsJavaFile(it: Item) {
    it.kind == FileKind && EndsWith(it.name, ".java")
  }

  /** What one listing entry adds to the summary: a readable Java controller with at
      least one endpoint adds its endpoints; anything else, or a failed read, adds
      nothing. */
  function Report(t: Tree, it: Item): Option<FileEndpoints> {
    if !IsJavaFile(it) then None
    else
      match t.Read(it.path)
      case None => None
      case Some(content) =>
        if IsController(content) && EndpointsIn(content) != [] then
          Some(FileEndpoints(it.path, EndpointsIn(content)))
        else None
  }

  /** The entries one listing adds, in listing order. */
  function ListingReports(t: Tree, items: seq<Item>): seq<FileEndpoints>
    decreases |items|
  {
    if items == [] then []
    else
      (match Report(t, items[0]) case Some(e) => [e] case None => [])
      + ListingReports(t, items[1..])
  }

  /** The entries one directory adds; a failed listing adds nothing. */
  function DirReports(t: Tree, dir: string): seq<FileEndpoints> {
    match t.List(dir)
    case None => []
    case Some(items) => ListingReports(t, items)
  }

  /** The summary a scan accumulates from queue `q` on. */
  function ScanFrom(t: Tree, q: seq<string>): seq<FileEndpoints>
    requires t.Valid()
    decreases QWeight(t, q, true)
  {
    if q == [] then []
    else
      NextDecreases(t, q, true);
      DirReports(t, q[0]) + ScanFrom(t, Next(t, q, true))
  }

  /** `repo_scan_logic_github`: a FIFO worklist of directory paths starting at the
      root; hidden directories are not enqueued, `.java` files are read and tested,
      and a failed listing or read skips only that path. */
  method RepoScan(remote: Remote, repo: string, branch: string) returns (result: ScanResult)
    requires remote.TreeOf(repo, branch).Valid()
    ensures result.repo == repo
    ensures result.endpointsFound == ScanFrom(remote.TreeOf(repo, branch), [Root])
  {
    var t := remote.TreeOf(repo, branch);
    var summary: seq<FileEndpoints> := [];
    var queue: seq<string> := [Root];
    while queue != []
      invariant summary + ScanFrom(t, queue) == ScanFrom(t, [Root])
      decreases QWeight(t, queue, true)
    {
      ghost var before, done := queue, summary;
      ScanStep(t, before);
      var current := queue[0];
      queue := queue[1..];
      var listing := t.List(current);
      if listing.Some? {
        ListedStep(t, before, listing.value);
        queue, summary := ScanListing(t, listing.value, queue, summary);
      } else {
        FailedStep(t, before);
        assert summary == done + [];
      }
      AppendChunk(done, DirReports(t, current), ScanFrom(t, before), ScanFrom(t, queue), ScanFrom(t, [Root]));
    }
    result := ScanResult(repo, summary);
  }

  /** One pop of the scan: the popped directory's entries come first, then the rest
      of the traversal, which has strictly less left to do. */
  lemma ScanStep(t: Tree, q: seq<string>)
    requires t.Valid() && q != []
    ensures ScanFrom(t, q) == DirReports(t, q[0]) + ScanFrom(t, Next(t, q, true))
    ensures QWeight(t, Next(t, q, true), true) < QWeight(t, q, true)
  {
    NextDecreases(t, q, true);
  }

  /** A listed directory: its entries come from its listing, and its subdirectories
      are queued behind the rest of the queue. */
  lemma ListedStep(t: Tree, q: seq<string>, items: seq<Item>)
    requires q != [] && t.List(q[0]) == Some(items)
    ensures Next(t, q, true) == q[1..] + ChildDirs(items, true)
    ensures DirReports(t, q[0]) == ListingReports(t, items)
  {
  }

  /** A directory whose listing fails adds nothing and queues nothing. */
  lemma FailedStep(t: Tree, q: seq<string>)
    requires q != [] && t.List(q[0]).None?
    ensures Next(t, q, true) == q[1..]
    ensures DirReports(t, q[0]) == []
  {
    assert q[1..] + [] == q[1..];
  }

  /** The loop over one listing: enqueue non-hidden directories, report qualifying
      Java controllers. */
  method ScanListing(t: Tree, items: seq<Item>, queue0: seq<string>, summary0: seq<FileEndpoints>)
    returns (queue: seq<string>, summary: seq<FileEndpoints>)
    ensures queue == queue0 + ChildDirs(items, true)
    ensures summary == summary0 + ListingReports(t, items)
  {
    queue, summary := queue0, summary0;
    for k := 0 to |items|
      invariant queue + ChildDirs(items[k..], true) == queue0 + ChildDirs(items, true)
      invariant summary + ListingReports(t, items[k..]) == summary0 + ListingReports(t, items)
    {
      var item := items[k];
      assert items[k..][1..] == items[k + 1..];
      assert ChildDirs(items[k..], true) ==
        (if Enqueues(item, true) then [item.path] else []) + ChildDirs(items[k + 1..], true);
      assert ListingReports(t, items[k..]) ==
        (match Report(t, item) case Some(e) => [e] case None => []) + ListingReports(t, items[k + 1..]);
      if item.kind == DirKind {
        if !Hidden(item.name) {
          queue := queue + [item.path];
        }
      } else {
        var entry := ReadController(t, item);
        if entry.Some? {
          summary := summary + [entry.value];
        }
      }
    }
    assert items[|items|..] == [];
  }

  /** One non-directory entry: read it when it is a `.java` file, and keep it when
      it is a controller with at least one endpoint. */
  method ReadController(t: Tree, item: Item) returns (entry: Option<FileEndpoints>)
    ensures entry == Report(t, item)
  {
    entry := None;
    if item.kind == FileKind && EndsWith(item.name, ".java") {
      var content := t.Read(item.path);
      if content.Some? {
        var text := content.value;
        if Contains(text, "@RestController") || Contains(text, "@Controller") {
          var endpoints := ExtractEndpoints(text);
          if endpoints != [] {
            entry := Some(FileEndpoints(item.path, endpoints));
          }
        }
      }
    }
  }

  /** The entries a sequence of directories adds, directory after directory. */
  function ReportsAlong(t: Tree, dirs: seq<string>): seq<FileEndpoints>
    decreases |dirs|
  {
    if dirs == [] then [] else DirReports(t, dirs[0]) + ReportsAlong(t, dirs[1..])
  }

  /** Discovery order: the summary is each listed directory's entries, in the order
      the FIFO traversal lists the directories. */
  lemma {:induction false} ScanFollowsVisits(t: Tree, q: seq<string>)
    requires t.Valid()
    ensures ScanFrom(t, q) == ReportsAlong(t, Visits(t, q, true))
    decreases QWeight(t, q, true)
  {
    if q != [] {
      NextDecreases(t, q, true);
      ScanFollowsVisits(t, Next(t, q, true));
    }
  }

  lemma {:induction false} ListingReportsMember(t: Tree, items: seq<Item>, e: FileEndpoints)
    ensures e in ListingReports(t, items) <==> exists it :: it in items && Report(t, it) == Some(e)
    decreases |items|
  {
    if items != [] {
      ListingReportsMember(t, items[1..], e);
      assert forall it :: it in items <==> it == items[0] || it in items[1..];
    }
  }

  lemma {:induction false} ReportsAlongMember(t: Tree, dirs: seq<string>, e: FileEndpoints)
    ensures e in ReportsAlong(t, dirs) <==> exists d :: d in dirs && e in DirReports(t, d)
    decreases |dirs|
  {
    if dirs != [] {
      ReportsAlongMember(t, dirs[1..], e);
      assert forall d :: d in dirs <==> d == dirs[0] || d in dirs[1..];
    }
  }

  /** The conditions under which listing entry `it` is reported as `e`. */
  ghost predicate Qualifies(t: Tree, it: Item, e: FileEndpoints) {
    IsJavaFile(it) && it.path in t.contents &&
    IsController(t.contents[it.path]) && EndpointsIn(t.contents[it.path]) != [] &&
    e == FileEndpoints(it.path, EndpointsIn(t.contents[it.path]))
  }

  /** The summary holds exactly the readable `.java` controllers with at least one
      endpoint found in the directories the traversal lists, each with its
      endpoints. */
  lemma ScanReportsExactly(t: Tree, e: FileEndpoints)
    requires t.Valid()
    ensures e in ScanFrom(t, [Root]) <==>
      exists d, it :: d in Visits(t, [Root], true) && d in t.listings && it in t.listings[d] && Qualifies(t, it, e)
  {
    var vs := Visits(t, [Root], true);
    ScanFollowsVisits(t, [Root]);
    ReportsAlongMember(t, vs, e);
    forall d | d in t.listings
      ensures e in DirReports(t, d) <==> exists it :: it in t.listings[d] && Qualifies(t, it, e)
    {
      ListingReportsMember(t, t.listings[d], e);
    }
  }

  /** A directory whose name starts with a dot is never listed, and neither is
      anything beneath it. */
  lemma {:induction false} HiddenSubtreeNeverListed(t: Tree, d: string, h: Item, v: string)
    requires t.Valid() && d in t.listings && h in t.listings[d]
    requires h.kind == DirKind && Hidden(h.name)
    requires v in Visits(t, [Root], true)
    ensures v != h.path && !StartsWith(v, h.path + "/")
    decreases |v|
  {
    if v != Root {
      VisitsProvenance(t, [Root], true, v);
      var d', it' :| d' in Visits(t, [Root], true) && d' in t.listings && it' in t.listings[d'] &&
        Enqueues(it', true) && it'.path == v;
      if v == h.path {
        SameChildPath(d', it'.name, d, h.name);
      }
      if StartsWith(v, h.path + "/") {
        ParentUnder(d', it'.name, h.path);
        HiddenSubtreeNeverListed(t, d, h, d');
      }
    }
  }

  /** No file beneath a hidden directory is ever reported. */
  lemma HiddenSubtreeNeverReported(t: Tree, d: string, h: Item, e: FileEndpoints)
    requires t.Valid() && d in t.listings && h in t.listings[d]
    requires h.kind == DirKind && Hidden(h.name)
    requires e in ScanFrom(t, [Root])
    ensures !StartsWith(e.file, h.path + "/")
  {
    ScanReportsExactly(t, e);
    var d', it :| d' in Visits(t, [Root], true) && d' in t.listings && it in t.listings[d'] && Qualifies(t, it, e);
    if StartsWith(e.file, h.path + "/") {
      ParentUnder(d', it.name, h.path);
      HiddenSubtreeNeverListed(t, d, h, d');
    }
  }

  lemma {:induction false} ListingReportsAppend(t: Tree, a: seq<Item>, b: seq<Item>)
    ensures ListingReports(t, a + b) == ListingReports(t, a) + ListingReports(t, b)
    decreases |a|
  {
    if a == [] {
      assert a + b == b;
    } else {
      assert (a + b)[1..] == a[1..] + b;
      ListingReportsAppend(t, a[1..], b);
    }
  }

  /** A failed read drops that one file; the entries after it in the same listing
      are still processed. */
  lemma ReadFailureSkipsOnlyThatFile(t: Tree, items: seq<Item>, k: nat)
    requires k < |items| && t.Read(items[k].path).None?
    ensures ListingReports(t, items) == ListingReports(t, items[..k]) + ListingReports(t, items[k + 1..])
  {
    assert items == items[..k] + ([items[k]] + items[k + 1..]);
    ListingReportsAppend(t, items[..k], [items[k]] + items[k + 1..]);
    assert ([items[k]] + items[k + 1..])[1..] == items[k + 1..];
  }

  /** A failed listing drops that directory and the subtree it would have queued;
      every directory queued behind it is still listed, in order. */
  lemma ListingFailureSkipsOnlyThatDirectory(t: Tree, q: seq<string>)
    requires t.Valid() && q != [] && t.List(q[0]).None?
    ensures ScanFrom(t, q) == ScanFrom(t, q[1..])
    ensures Visits(t, q, true) == [q[0]] + Visits(t, q[1..], true)
    ensures q[1..] <= Visits(t, q[1..], true)
  {
    assert Next(t, q, true) == q[1..];
    VisitsKeepQueueOrder(t, q[1..], true);
  }
}
