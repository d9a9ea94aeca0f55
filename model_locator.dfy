/** The two searches of the test generator: `find_model_file`, over the local
    directory walk, and `find_models_dir_github`, a breadth-first search of the
    remote repository for the models directory. */
module ModelLocator {
  import opened Wrappers
  import opened Text
  import opened RepoTree

  // find_model_file

  /** One step of `os.walk`: a directory and the names of the files in it, in the
      order the walk reports them. */
  type WalkStep = (string, seq<string>)

  /** `os.path.join(a, b)` on POSIX paths. */
  function OsJoin(a: string, b: string): (r: string)
    ensures EndsWith(r, b)
  {
    if StartsWith(b, "/") then b
    else if a == "" || EndsWith(a, "/") then a + b
    else a + "/" + b
  }

  /** The file a model class is declared in. */
  function ModelFileName(modelName: string): string {
    modelName + ".java"
  }

  /** The first file of one walk step named `target`, joined to its directory. */
  function FileIn(root: string, files: seq<string>, target: string): Option<string>
    decreases |files|
  {
    if files == [] then None
    else if files[0] == target then Some(OsJoin(root, files[0]))
    else FileIn(root, files[1..], target)
  }

  /** The first file named after the model, in walk order. */
  function ModelFileIn(walk: seq<WalkStep>, modelName: string): Option<string>
    decreases |walk|
  {
    if walk == [] then None
    else
      match FileIn(walk[0].0, walk[0].1, ModelFileName(modelName))
      case Some(p) => Some(p)
      case None => ModelFileIn(walk[1..], modelName)
  }

  /** `find_model_file`: walk the models directory and return the first file named
      `<model>.java`, joined to the directory it was found in. */
  method FindModelFile(walk: seq<WalkStep>, modelName: string) returns (r: Option<string>)
    ensures r == ModelFileIn(walk, modelName)
  {
    var target := ModelFileName(modelName);
    for i := 0 to |walk|
      invariant ModelFileIn(walk[i..], modelName) == ModelFileIn(walk, modelName)
    {
      var root, files := walk[i].0, walk[i].1;
      assert walk[i..][1..] == walk[i + 1..];
      for j := 0 to |files|
        invariant FileIn(root, files[j..], target) == FileIn(root, files, target)
      {
        assert files[j..][1..] == files[j + 1..];
        if files[j] == target {
          return Some(OsJoin(root, files[j]));
        }
      }
      assert files[|files|..] == [];
    }
    return None;
  }

  /** A file found in one walk step sits at a position whose name is the target,
      and no earlier file of the step has that name. */
  lemma {:induction false} FileInSound(root: string, files: seq<string>, target: string, p: string)
    returns (j: nat)
    requires FileIn(root, files, target) == Some(p)
    ensures j < |files| && files[j] == target && p == OsJoin(root, target)
    ensures forall j' :: 0 <= j' < j ==> files[j'] != target
    decreases |files|
  {
    if files[0] == target {
      j := 0;
    } else {
      var j1 := FileInSound(root, files[1..], target, p);
      j := j1 + 1;
    }
  }

  /** A step finds nothing exactly when it has no file with the target name. */
  lemma {:induction false} FileInNone(root: string, files: seq<string>, target: string)
    ensures FileIn(root, files, target).None? <==> target !in files
    decreases |files|
  {
    if files != [] {
      FileInNone(root, files[1..], target);
      assert files == [files[0]] + files[1..];
    }
  }

  /** `find_model_file` returns a path only for a file named `<model>.java`: the
      first in walk order, directory by directory and file by file. */
  lemma {:induction false} ModelFileFound(walk: seq<WalkStep>, modelName: string, p: string)
    returns (i: nat, j: nat)
    requires ModelFileIn(walk, modelName) == Some(p)
    ensures i < |walk| && j < |walk[i].1| && walk[i].1[j] == ModelFileName(modelName)
    ensures p == OsJoin(walk[i].0, ModelFileName(modelName))
    ensures forall i' :: 0 <= i' < i ==> ModelFileName(modelName) !in walk[i'].1
    ensures forall j' :: 0 <= j' < j ==> walk[i].1[j'] != ModelFileName(modelName)
    decreases |walk|
  {
    var target := ModelFileName(modelName);
    var here := FileIn(walk[0].0, walk[0].1, target);
    if here.Some? {
      i := 0;
      j := FileInSound(walk[0].0, walk[0].1, target, p);
    } else {
      FileInNone(walk[0].0, walk[0].1, target);
      var i1;
      i1, j := ModelFileFound(walk[1..], modelName, p);
      i := i1 + 1;
    }
  }

  /** `find_model_file` returns `None` exactly when no directory of the walk holds a
      file named `<model>.java`. */
  lemma {:induction false} ModelFileAbsent(walk: seq<WalkStep>, modelName: string)
    ensures ModelFileIn(walk, modelName).None? <==>
      forall i :: 0 <= i < |walk| ==> ModelFileName(modelName) !in walk[i].1
    decreases |walk|
  {
    if walk != [] {
      FileInNone(walk[0].0, walk[0].1, ModelFileName(modelName));
      ModelFileAbsent(walk[1..], modelName);
      assert forall i :: 1 <= i < |walk| ==> walk[i] == walk[1..][i - 1];
    }
  }

  // find_models_dir_github

  /** The search starts at the Java source root. */
  const ModelsBase := "src/main/java"

  /** `name.lower() in ["model", "models"]` */
  predicate IsModelsName(name: string) {
    Lower(name) == "model" || Lower(name) == "models"
  }

  /** A `dir` entry with one of the two names. Hidden directories are not
      excluded. */
  predicate IsModelsDir(it: Item) {
    it.kind == DirKind && IsModelsName(it.name)
  }

  /** The path of the first models directory in one listing. */
  function FirstModelsDir(items: seq<Item>): Option<string>
    decreases |items|
  {
    if items == [] then None
    else if IsModelsDir(items[0]) then Some(items[0].path)
    else FirstModelsDir(items[1..])
  }

  /** What listing one directory yields; a failed listing yields nothing. */
  function ListedModelsDir(t: Tree, dir: string): Option<string> {
    match t.List(dir)
    case None => None
    case Some(items) => FirstModelsDir(items)
  }

  /** The answer of a search that continues from queue `q`: every directory is
      queued, hidden or not. */
  function ModelsDirFrom(t: Tree, q: seq<string>): Option<string>
    requires t.Valid()
    decreases QWeight(t, q, false)
  {
    if q == [] then None
    else
      NextDecreases(t, q, false);
      match ListedModelsDir(t, q[0])
      case Some(p) => Some(p)
      case None => ModelsDirFrom(t, Next(t, q, false))
  }

  /** `find_models_dir_github`: a FIFO search from `src/main/java` that returns the
      path of the first `model` or `models` directory as soon as a listing shows
      it, skips directories whose listing fails, and gives `None` when the queue
      runs dry. */
  method FindModelsDirGithub(remote: Remote, repo: string, branch: string) returns (r: Option<string>)
    requires remote.TreeOf(repo, branch).Valid()
    ensures r == ModelsDirFrom(remote.TreeOf(repo, branch), [ModelsBase])
  {
    var t := remote.TreeOf(repo, branch);
    var queue: seq<string> := [ModelsBase];
    while queue != []
      invariant ModelsDirFrom(t, queue) == ModelsDirFrom(t, [ModelsBase])
      decreases QWeight(t, queue, false)
    {
      ghost var before := queue;
      NextDecreases(t, before, false);
      var current := queue[0];
      queue := queue[1..];
      var listing := t.List(current);
      if listing.Some? {
        var found;
        found, queue := SearchListing(listing.value, queue);
        if found.Some? {
          return found;
        }
      }
      assert queue == Next(t, before, false);
    }
    return None;
  }

  /** The loop over one listing: stop at the first models directory, otherwise
      queue every directory. */
  method SearchListing(items: seq<Item>, queue0: seq<string>) returns (found: Option<string>, queue: seq<string>)
    ensures found == FirstModelsDir(items)
    ensures found.None? ==> queue == queue0 + ChildDirs(items, false)
  {
    queue := queue0;
    for k := 0 to |items|
      invariant FirstModelsDir(items[k..]) == FirstModelsDir(items)
      invariant queue + ChildDirs(items[k..], false) == queue0 + ChildDirs(items, false)
    {
      var item := items[k];
      assert items[k..][1..] == items[k + 1..];
      assert ChildDirs(items[k..], false) ==
        (if Enqueues(item, false) then [item.path] else []) + ChildDirs(items[k + 1..], false);
      if item.kind == DirKind {
        if Lower(item.name) == "model" || Lower(item.name) == "models" {
          return Some(item.path), queue;
        }
        queue := queue + [item.path];
      }
    }
    assert items[|items|..] == [];
    found := None;
  }

  /** The answer along a sequence of directories: the first one whose listing
      shows a models directory. */
  function FirstAlong(t: Tree, dirs: seq<string>): Option<string>
    decreases |dirs|
  {
    if dirs == [] then None
    else
      match ListedModelsDir(t, dirs[0])
      case Some(p) => Some(p)
      case None => FirstAlong(t, dirs[1..])
  }

  /** The search looks at listings in the order the FIFO traversal without hidden
      skipping lists directories, and stops at the first that shows a models
      directory. */
  lemma {:induction false} ModelsDirFollowsVisits(t: Tree, q: seq<string>)
    requires t.Valid()
    ensures ModelsDirFrom(t, q) == FirstAlong(t, Visits(t, q, false))
    decreases QWeight(t, q, false)
  {
    if q != [] {
      NextDecreases(t, q, false);
      ModelsDirFollowsVisits(t, Next(t, q, false));
    }
  }

  /** A listing's answer is a models directory entry of it, and no earlier entry
      of it is one. */
  lemma {:induction false} FirstModelsDirSound(items: seq<Item>, p: string) returns (k: nat)
    requires FirstModelsDir(items) == Some(p)
    ensures k < |items| && IsModelsDir(items[k]) && items[k].path == p
    ensures forall k' :: 0 <= k' < k ==> !IsModelsDir(items[k'])
    decreases |items|
  {
    if IsModelsDir(items[0]) {
      k := 0;
    } else {
      var k1 := FirstModelsDirSound(items[1..], p);
      k := k1 + 1;
    }
  }

  lemma {:induction false} FirstModelsDirNone(items: seq<Item>)
    ensures FirstModelsDir(items).None? <==> forall it :: it in items ==> !IsModelsDir(it)
    decreases |items|
  {
    if items != [] {
      FirstModelsDirNone(items[1..]);
      assert forall it :: it in items <==> it == items[0] || it in items[1..];
    }
  }

  lemma {:induction false} FirstAlongSound(t: Tree, dirs: seq<string>, p: string) returns (i: nat)
    requires FirstAlong(t, dirs) == Some(p)
    ensures i < |dirs| && ListedModelsDir(t, dirs[i]) == Some(p)
    ensures forall i' :: 0 <= i' < i ==> ListedModelsDir(t, dirs[i']).None?
    decreases |dirs|
  {
    if ListedModelsDir(t, dirs[0]).Some? {
      i := 0;
    } else {
      var i1 := FirstAlongSound(t, dirs[1..], p);
      i := i1 + 1;
    }
  }

  lemma {:induction false} FirstAlongNone(t: Tree, dirs: seq<string>)
    ensures FirstAlong(t, dirs).None? <==> forall d :: d in dirs ==> ListedModelsDir(t, d).None?
    decreases |dirs|
  {
    if dirs != [] {
      FirstAlongNone(t, dirs[1..]);
      assert forall d :: d in dirs <==> d == dirs[0] || d in dirs[1..];
    }
  }

  /** The returned path is that of a `model`/`models` directory entry in the listing
      of a directory the search reached; every directory listed before it shows no
      such entry, and neither does any earlier entry of the same listing. */
  lemma ModelsDirFound(t: Tree, p: string) returns (i: nat, k: nat)
    requires t.Valid()
    requires ModelsDirFrom(t, [ModelsBase]) == Some(p)
    ensures var vs := Visits(t, [ModelsBase], false);
      i < |vs| && vs[i] in t.listings && k < |t.listings[vs[i]]| &&
      IsModelsDir(t.listings[vs[i]][k]) && t.listings[vs[i]][k].path == p &&
      (forall k' :: 0 <= k' < k ==> !IsModelsDir(t.listings[vs[i]][k'])) &&
      (forall i' :: 0 <= i' < i ==> ListedModelsDir(t, vs[i']).None?)
  {
    var vs := Visits(t, [ModelsBase], false);
    ModelsDirFollowsVisits(t, [ModelsBase]);
    i := FirstAlongSound(t, vs, p);
    k := FirstModelsDirSound(t.listings[vs[i]], p);
  }

  /** The search gives `None` exactly when no directory it reaches lists a
      `model`/`models` directory. */
  lemma ModelsDirAbsent(t: Tree)
    requires t.Valid()
    ensures ModelsDirFrom(t, [ModelsBase]).None? <==>
      forall d, it :: d in Visits(t, [ModelsBase], false) && d in t.listings && it in t.listings[d] ==>
        !IsModelsDir(it)
  {
    var vs := Visits(t, [ModelsBase], false);
    ModelsDirFollowsVisits(t, [ModelsBase]);
    FirstAlongNone(t, vs);
    forall d | d in vs && d in t.listings
      ensures ListedModelsDir(t, d).None? <==> forall it :: it in t.listings[d] ==> !IsModelsDir(it)
    {
      FirstModelsDirNone(t.listings[d]);
    }
  }

  /** Unlike the scanner, this search descends into hidden directories: a hidden
      directory listed by a directory it reaches is reached too. */
  lemma HiddenDirectoriesSearched(t: Tree, d: string, h: Item)
    requires t.Valid()
    requires d in Visits(t, [ModelsBase], false) && d in t.listings && h in t.listings[d]
    requires h.kind == DirKind && Hidden(h.name)
    ensures h.path in Visits(t, [ModelsBase], false)
  {
    VisitsClosed(t, [ModelsBase], false, d, h);
  }
}
