/** Stage 2: the endpoint loop of `generate_api_tests`. For every endpoint of every
    controller file the scanner reported, it derives a test name, chooses between
    a request with a JSON payload and a bare request, and assembles the lines of a
    pytest function. */
module TestGenerator {
  import opened Wrappers
  import opened Text
  import opened RepoTree
  import opened EndpointExtractor
  import opened RepoScanner
  import opened ModelFields
  import opened ModelLocator
  import ControllerBinder

  /** A step that either completes or raises. Only `open` of a model file can raise
      here, and nothing catches it: the whole generation stops. */
  datatype Outcome<T> = Done(value: T) | Crashed

  /** The local file system: what `os.walk` yields from a directory, and the files
      `open` can read. */
  datatype LocalFs = LocalFs(walks: map<string, seq<WalkStep>>, files: map<string, string>) {
    /** Walking a directory that does not exist yields nothing. */
    function Walk(top: string): seq<WalkStep> {
      if top in walks then walks[top] else []
    }

    /** `open(path).read()`, or `None` when it raises. */
    function Open(path: string): Option<string> {
      if path in files then Some(files[path]) else None
    }
  }

  /** One generated test: `{"test_name": ..., "code": ...}`. */
  datatype Test = Test(testName: string, code: string)

  /** The request a test sends: with a JSON body, or without one. */
  datatype Request = Bare | WithPayload(payload: Payload)

  /** What stays fixed over the loop: the base URL, the models directory found on
      the remote, the local file system, and the `json.dumps(..., indent=4)`
      rendering of a payload. */
  datatype Settings = Settings(baseUrl: string, modelsDir: Option<string>, local: LocalFs,
                               render: Payload -> string)

  /** Both controller files and the models directory are read from this branch. */
  const DefaultBranch := "main"

  // Test names.

  /** `ep["method"].replace("Mapping", "")`: the verb as the annotation spells it. */
  function VerbStem(verb: string): string {
    ReplaceAll(verb, "Mapping", "")
  }

  /** The lower-case verb: the name of the `requests` function the test calls. */
  function MethodName(verb: string): string {
    Lower(VerbStem(verb))
  }

  /** `path.strip('/').replace('/', '_').replace('{', '').replace('}', '')` */
  function PathPart(path: string): (r: string)
    ensures '/' !in r && '{' !in r && '}' !in r
  {
    var inner := ReplaceChar(Strip(path, '/'), '/', '_');
    assert '/' !in inner by {
      forall i | 0 <= i < |inner| ensures inner[i] != '/' { }
    }
    RemoveChar(RemoveChar(inner, '{'), '}')
  }

  /** `f"test_{method}_{path_part}"` */
  function TestName(verb: string, path: string): (r: string)
    ensures StartsWith(r, "test_")
    ensures EndsWith(r, "_" + PathPart(path))
  {
    var r := "test_" + MethodName(verb) + "_" + PathPart(path);
    assert r == ("test_" + MethodName(verb)) + ("_" + PathPart(path));
    r
  }

  /** The four annotations name the four `requests` functions, and their stems are
      what the controller search looks for. */
  lemma MethodNames()
    ensures VerbStem("GetMapping") == "Get" && MethodName("GetMapping") == "get"
    ensures VerbStem("PostMapping") == "Post" && MethodName("PostMapping") == "post"
    ensures VerbStem("PutMapping") == "Put" && MethodName("PutMapping") == "put"
    ensures VerbStem("DeleteMapping") == "Delete" && MethodName("DeleteMapping") == "delete"
  {
    GetName();
    PostName();
    PutName();
    DeleteName();
  }

  lemma GetName()
    ensures VerbStem("GetMapping") == "Get" && MethodName("GetMapping") == "get"
  {
    VerbNames("Get", "get");
    assert "Get" + "Mapping" == "GetMapping";
  }

  lemma PostName()
    ensures VerbStem("PostMapping") == "Post" && MethodName("PostMapping") == "post"
  {
    VerbNames("Post", "post");
    assert "Post" + "Mapping" == "PostMapping";
  }

  lemma PutName()
    ensures VerbStem("PutMapping") == "Put" && MethodName("PutMapping") == "put"
  {
    VerbNames("Put", "put");
    assert "Put" + "Mapping" == "PutMapping";
  }

  lemma DeleteName()
    ensures VerbStem("DeleteMapping") == "Delete" && MethodName("DeleteMapping") == "delete"
  {
    VerbNames("Delete", "delete");
    assert "Delete" + "Mapping" == "DeleteMapping";
  }

  lemma VerbNames(v: string, w: string)
    requires 'M' !in v
    requires |v| == |w| && forall i :: 0 <= i < |v| ==> LowerChar(v[i]) == w[i]
    ensures VerbStem(v + "Mapping") == v && MethodName(v + "Mapping") == w
  {
    StemOf(v);
    LowerOf(v, w);
  }

  /** A verb followed by `Mapping` loses exactly that suffix when the verb itself
      holds no `M`. */
  lemma {:induction false} StemOf(v: string)
    requires 'M' !in v
    ensures VerbStem(v + "Mapping") == v
    decreases |v|
  {
    var s := v + "Mapping";
    if v == [] {
      assert s[..7] == "Mapping" && s[7..] == [];
      assert ReplaceAll(s[7..], "Mapping", "") == [];
    } else {
      assert s[..7] != "Mapping" by { assert s[0] != 'M'; }
      assert VerbStem(s) == [s[0]] + VerbStem(s[1..]);
      assert s[1..] == v[1..] + "Mapping";
      StemOf(v[1..]);
      assert [v[0]] + v[1..] == v;
    }
  }

  lemma LowerOf(v: string, w: string)
    requires |v| == |w| && forall i :: 0 <= i < |v| ==> LowerChar(v[i]) == w[i]
    ensures Lower(v) == w
  {
  }

  lemma MethodNameOf(verb: string)
    requires verb in Verbs
    ensures MethodName(verb) in ["get", "post", "put", "delete"]
  {
    if verb == "GetMapping" {
      GetName();
    } else if verb == "PostMapping" {
      PostName();
    } else if verb == "PutMapping" {
      PutName();
    } else {
      DeleteName();
    }
  }

  lemma NameChars(m: string, p: string)
    requires m in ["get", "post", "put", "delete"]
    requires '/' !in p && '{' !in p && '}' !in p
    ensures var name := "test_" + m + "_" + p; '/' !in name && '{' !in name && '}' !in name
  {
  }

  /** A test name is `test_`, the lower-case verb, `_` and the cleaned path; it
      holds no `/`, `{` or `}`. */
  lemma TestNameShape(e: Endpoint)
    requires e.verb in Verbs
    ensures MethodName(e.verb) in ["get", "post", "put", "delete"]
    ensures '/' !in TestName(e.verb, e.path) && '{' !in TestName(e.verb, e.path) &&
      '}' !in TestName(e.verb, e.path)
  {
    MethodNameOf(e.verb);
    NameChars(MethodName(e.verb), PathPart(e.path));
  }

  /** The path `/users/{id}` of a `GetMapping` names the test `test_get_users_id`. */
  lemma TestNameExample()
    ensures TestName("GetMapping", "/users/{id}") == "test_get_users_id"
  {
    var m, p := MethodName("GetMapping"), PathPart("/users/{id}");
    GetName();
    PathPartExample();
    assert TestName("GetMapping", "/users/{id}") == "test_" + m + "_" + p;
    ConcatExample();
  }

  lemma ConcatExample()
    ensures "test_" + "get" + "_" + "users_id" == "test_get_users_id"
  {
  }

  lemma PathPartExample()
    ensures PathPart("/users/{id}") == "users_id"
  {
    StripExample();
    ReplaceExample();
    OpenBraceExample();
    CloseBraceExample();
  }

  lemma StripExample()
    ensures Strip("/users/{id}", '/') == "users/{id}"
  {
    LeadingSlashExample();
    TrailingSlashExample();
  }

  lemma LeadingSlashExample()
    ensures TrimStart("/users/{id}", '/') == "users/{id}"
  {
    var p := "/users/{id}";
    assert p[1..] == "users/{id}";
    assert TrimStart(p, '/') == TrimStart(p[1..], '/');
  }

  lemma TrailingSlashExample()
    ensures TrimEnd("users/{id}", '/') == "users/{id}"
  {
  }

  lemma ReplaceExample()
    ensures ReplaceChar("users/{id}", '/', '_') == "users_{id}"
  {
    var r := ReplaceChar("users/{id}", '/', '_');
    assert forall i :: 0 <= i < |r| ==> r[i] == "users_{id}"[i];
  }

  lemma OpenBraceExample()
    ensures RemoveChar("users_{id}", '{') == "users_id}"
  {
    assert "users_{id}" == "users_" + ("{" + "id}");
    RemoveCharAppend("users_", "{" + "id}", '{');
    RemoveCharAppend("{", "id}", '{');
    RemoveCharAbsent("users_", '{');
    RemoveCharAbsent("id}", '{');
    assert "users_" + "id}" == "users_id}";
  }

  lemma CloseBraceExample()
    ensures RemoveChar("users_id}", '}') == "users_id"
  {
    assert "users_id}" == "users_id" + "}";
    RemoveCharAppend("users_id", "}", '}');
    RemoveCharAbsent("users_id", '}');
  }

  lemma {:induction false} RemoveCharAppend(a: string, b: string, c: char)
    ensures RemoveChar(a + b, c) == RemoveChar(a, c) + RemoveChar(b, c)
    decreases |a|
  {
    if a == [] {
      assert a + b == b;
    } else {
      assert (a + b)[0] == a[0] && (a + b)[1..] == a[1..] + b;
      RemoveCharAppend(a[1..], b, c);
    }
  }

  lemma {:induction false} RemoveCharAbsent(s: string, c: char)
    requires c !in s
    ensures RemoveChar(s, c) == s
    decreases |s|
  {
    if s != [] {
      RemoveCharAbsent(s[1..], c);
      assert [s[0]] + s[1..] == s;
    }
  }

  // Payload selection.

  /** The body of a post or put request when no model is found. */
  const DummyPayload: Payload := map["dummy" := StrV("data")]

  /** Lines 193-199: a payload only for post and put, and only when a models
      directory was found; the model's own payload only when the controller names
      a body type and a file of that name lies under the models directory. The
      three `if` tests of the source are on values that are never empty (an entry
      path, a `\w+` match, a path ending in `.java`), so they test presence. */
  function RequestFor(s: Settings, content: string, ep: Endpoint): (r: Outcome<Request>)
    ensures r == Done(Bare) <==>
      !((MethodName(ep.verb) == "post" || MethodName(ep.verb) == "put") && s.modelsDir.Some?)
    ensures r.Crashed? ==> ControllerBinder.DetectModel(content, VerbStem(ep.verb), ep.path).Some?
    ensures r.Done? && r.value.WithPayload? ==>
      r.value.payload == DummyPayload ||
      exists f :: f in s.local.files && r.value.payload == BuildPayload(s.local.files[f])
  {
    var m := MethodName(ep.verb);
    if (m == "post" || m == "put") && s.modelsDir.Some? then
      match ControllerBinder.DetectModel(content, VerbStem(ep.verb), ep.path)
      case None => Done(WithPayload(DummyPayload))
      case Some(model) =>
        match ModelFileIn(s.local.Walk(s.modelsDir.value), model)
        case None => Done(WithPayload(DummyPayload))
        case Some(file) =>
          match s.local.Open(file)
          case None => Crashed
          case Some(text) => Done(WithPayload(BuildPayload(text)))
    else Done(Bare)
  }

  /** A post or put whose controller has no handler for exactly this verb and path
      with a `@RequestBody` parameter sends `{"dummy": "data"}`. */
  lemma DummyWithoutHandler(s: Settings, content: string, ep: Endpoint)
    requires MethodName(ep.verb) == "post" || MethodName(ep.verb) == "put"
    requires s.modelsDir.Some?
    requires forall k: nat, h :: k <= |content| ==>
      !ControllerBinder.HandlerAt(content, k, ControllerBinder.Anchor(VerbStem(ep.verb), ep.path), h)
    ensures RequestFor(s, content, ep) == Done(WithPayload(DummyPayload))
  {
    ControllerBinder.DetectNoneIff(content, VerbStem(ep.verb), ep.path);
  }

  /** So does one whose first such handler names a body type with no file
      `<type>.java` anywhere under the models directory. */
  lemma DummyWithoutModelFile(s: Settings, content: string, ep: Endpoint, k: nat, h: ControllerBinder.Handler)
    requires MethodName(ep.verb) == "post" || MethodName(ep.verb) == "put"
    requires s.modelsDir.Some?
    requires ControllerBinder.HandlerAt(content, k, ControllerBinder.Anchor(VerbStem(ep.verb), ep.path), h)
    requires forall j: nat, g :: j < k ==>
      !ControllerBinder.HandlerAt(content, j, ControllerBinder.Anchor(VerbStem(ep.verb), ep.path), g)
    requires var walk := s.local.Walk(s.modelsDir.value);
      forall i :: 0 <= i < |walk| ==> ModelFileName(h.bodyType) !in walk[i].1
    ensures RequestFor(s, content, ep) == Done(WithPayload(DummyPayload))
  {
    ControllerBinder.DetectFirst(content, VerbStem(ep.verb), ep.path, k, h);
    ModelFileAbsent(s.local.Walk(s.modelsDir.value), h.bodyType);
  }

  /** When the first handler's body type has a model file under the models
      directory, the payload is built from that file; when the file cannot be
      opened, the whole generation raises. */
  lemma PayloadFromModel(s: Settings, content: string, ep: Endpoint, k: nat, h: ControllerBinder.Handler, file: string)
    requires MethodName(ep.verb) == "post" || MethodName(ep.verb) == "put"
    requires s.modelsDir.Some?
    requires ControllerBinder.HandlerAt(content, k, ControllerBinder.Anchor(VerbStem(ep.verb), ep.path), h)
    requires forall j: nat, g :: j < k ==>
      !ControllerBinder.HandlerAt(content, j, ControllerBinder.Anchor(VerbStem(ep.verb), ep.path), g)
    requires ModelFileIn(s.local.Walk(s.modelsDir.value), h.bodyType) == Some(file)
    ensures s.local.Open(file).Some? ==>
      RequestFor(s, content, ep) == Done(WithPayload(BuildPayload(s.local.Open(file).value)))
    ensures s.local.Open(file).None? ==> RequestFor(s, content, ep) == Crashed
  {
    ControllerBinder.DetectFirst(content, VerbStem(ep.verb), ep.path, k, h);
  }

  // Code lines.

  /** The eight lines every test starts with: the import, the base URL and the
      `substitute_path` helper that replaces each `{...}` with `1`. */
  function Prelude(baseUrl: string): seq<string> {
    ["import requests",
     "BASE_URL = \"" + baseUrl + "\"",
     "def substitute_path(path: str):",
     "    import re",
     "    def repl(match):",
     "        return \"1\"",
     "    return re.sub(r'{(.*?)}', repl, path)",
     ""]
  }

  /** The URL line: the raw path, placeholders and all, is handed to
      `substitute_path`. */
  function UrlLine(path: string): string {
    "    url = substitute_path(f\"{BASE_URL}" + path + "\")"
  }

  const StatusLine := "    assert response.status_code in [200,201,204]"

  /** Every line that sends a payload starts like this, and no other line does. */
  const PayloadHead := "    payload = "

  /** The request lines: the payload and a call with `json=payload`, or a bare
      call. */
  function RequestLines(m: string, req: Request, render: Payload -> string): seq<string> {
    match req
    case WithPayload(p) => [PayloadHead + render(p), "    response = requests." + m + "(url, json=payload)"]
    case Bare => ["    response = requests." + m + "(url)"]
  }

  function TestLines(s: Settings, name: string, m: string, path: string, req: Request): seq<string> {
    Prelude(s.baseUrl) + ["def " + name + "():", UrlLine(path)] + RequestLines(m, req, s.render) + [StatusLine, ""]
  }

  /** The test for one endpoint of a controller whose text is `content`. */
  function TestFor(s: Settings, content: string, ep: Endpoint): (r: Outcome<Test>)
    ensures r.Crashed? <==> RequestFor(s, content, ep).Crashed?
    ensures r.Done? ==> r.value.testName == TestName(ep.verb, ep.path)
  {
    match RequestFor(s, content, ep)
    case Crashed => Crashed
    case Done(req) =>
      var lines := TestLines(s, TestName(ep.verb, ep.path), MethodName(ep.verb), ep.path, req);
      Done(Test(TestName(ep.verb, ep.path), Join(lines, "\n")))
  }

  /** Lines 176-218 for one endpoint: build `code_lines` step by step. */
  method BuildTest(s: Settings, content: string, ep: Endpoint) returns (test: Outcome<Test>)
    ensures test == TestFor(s, content, ep)
  {
    var m := MethodName(ep.verb);
    var path := ep.path;
    var name := TestName(ep.verb, path);
    var codeLines := Prelude(s.baseUrl);
    var req: Request := Bare;
    if (m == "post" || m == "put") && s.modelsDir.Some? {
      var model := ControllerBinder.DetectModel(content, VerbStem(ep.verb), path);
      var payload := DummyPayload;
      if model.Some? {
        var file := FindModelFile(s.local.Walk(s.modelsDir.value), model.value);
        if file.Some? {
          var text := s.local.Open(file.value);
          if text.None? {
            return Crashed;
          }
          payload := BuildPayload(text.value);
        }
      }
      req := WithPayload(payload);
      codeLines := codeLines + ["def " + name + "():"];
      codeLines := codeLines + [UrlLine(path)];
      codeLines := codeLines + [PayloadHead + s.render(payload)];
      codeLines := codeLines + ["    response = requests." + m + "(url, json=payload)"];
      codeLines := codeLines + [StatusLine];
      codeLines := codeLines + [""];
    } else {
      codeLines := codeLines + ["def " + name + "():"];
      codeLines := codeLines + [UrlLine(path)];
      codeLines := codeLines + ["    response = requests." + m + "(url)"];
      codeLines := codeLines + [StatusLine];
      codeLines := codeLines + [""];
    }
    assert RequestFor(s, content, ep) == Done(req);
    assert codeLines == TestLines(s, name, m, path, req);
    test := Done(Test(name, Join(codeLines, "\n")));
  }

  /** Every test checks the status code, sends its endpoint's raw path through
      `substitute_path`, and carries the base URL. */
  lemma TestForShape(s: Settings, content: string, ep: Endpoint, t: Test)
    requires TestFor(s, content, ep) == Done(t)
    ensures t.testName == TestName(ep.verb, ep.path)
    ensures Contains(t.code, StatusLine)
    ensures Contains(t.code, UrlLine(ep.path))
    ensures Contains(t.code, "BASE_URL = \"" + s.baseUrl + "\"")
  {
    var req := RequestFor(s, content, ep).value;
    var lines := TestLines(s, t.testName, MethodName(ep.verb), ep.path, req);
    var n := |lines|;
    assert lines[n - 2] == StatusLine;
    assert lines[9] == UrlLine(ep.path);
    assert lines[1] == "BASE_URL = \"" + s.baseUrl + "\"";
    var a := JoinPiece(lines, "\n", n - 2);
    PieceContains(t.code, a, StatusLine);
    var b := JoinPiece(lines, "\n", 9);
    PieceContains(t.code, b, UrlLine(ep.path));
    var c := JoinPiece(lines, "\n", 1);
    PieceContains(t.code, c, "BASE_URL = \"" + s.baseUrl + "\"");
  }

  /** A test has a payload line exactly when its request carries a payload. */
  lemma PayloadLineIff(s: Settings, name: string, m: string, path: string, req: Request)
    ensures (exists i :: 0 <= i < |TestLines(s, name, m, path, req)| &&
               StartsWith(TestLines(s, name, m, path, req)[i], PayloadHead)) <==> req.WithPayload?
  {
    var lines := TestLines(s, name, m, path, req);
    if req.WithPayload? {
      assert StartsWith(lines[10], PayloadHead);
    } else {
      forall i | 0 <= i < |lines|
        ensures !StartsWith(lines[i], PayloadHead)
      {
        NotPayloadLine(s, name, m, path, lines, i);
      }
    }
  }

  lemma NotPayloadLine(s: Settings, name: string, m: string, path: string, lines: seq<string>, i: nat)
    requires lines == TestLines(s, name, m, path, Bare) && i < |lines|
    ensures !StartsWith(lines[i], PayloadHead)
  {
    assert |lines| == 13;
    var l := lines[i];
    if i == 0 || i == 1 || i == 2 || i == 8 {
      assert l[0] != ' ';
    } else if i == 7 || i == 12 {
      assert l == "";
    } else if i == 9 {
      assert l[4] == 'u';
    } else if i == 10 || i == 3 || i == 4 || i == 5 || i == 6 || i == 11 {
      assert l[4] != 'p';
    }
  }

  // The loop over files and endpoints.

  /** Each endpoint paired with the text of its controller. */
  function Paired(content: string, eps: seq<Endpoint>): (r: seq<(string, Endpoint)>)
    ensures |r| == |eps|
    ensures forall i :: 0 <= i < |eps| ==> r[i] == (content, eps[i])
    decreases |eps|
  {
    if eps == [] then [] else [(content, eps[0])] + Paired(content, eps[1..])
  }

  /** The endpoints the loop works on, file after file and in each file in order:
      a file whose controller text cannot be read contributes none. */
  function ReadableEndpoints(controllers: Tree, entries: seq<FileEndpoints>): seq<(string, Endpoint)>
    decreases |entries|
  {
    if entries == [] then []
    else
      (match controllers.Read(entries[0].file)
       case None => []
       case Some(content) => Paired(content, entries[0].endpoints))
      + ReadableEndpoints(controllers, entries[1..])
  }

  /** Putting a result in front of what follows. */
  function Prepend<T>(t: T, rest: Outcome<seq<T>>): Outcome<seq<T>> {
    match rest
    case Done(ts) => Done([t] + ts)
    case Crashed => Crashed
  }

  /** One result per element, in order; the first element that raises stops it
      all. */
  function Collect<X, T>(f: X -> Outcome<T>, xs: seq<X>): Outcome<seq<T>>
    decreases |xs|
  {
    if xs == [] then Done([])
    else
      match f(xs[0])
      case Crashed => Crashed
      case Done(t) => Prepend(t, Collect(f, xs[1..]))
  }

  /** Results already made, then the outcome of the rest. */
  function Then<T>(done: seq<T>, rest: Outcome<seq<T>>): Outcome<seq<T>> {
    match rest
    case Done(ts) => Done(done + ts)
    case Crashed => Crashed
  }

  /** The test of one endpoint paired with its controller's text. */
  function TestOf(s: Settings): ((string, Endpoint)) -> Outcome<Test> {
    (x: (string, Endpoint)) => TestFor(s, x.0, x.1)
  }

  /** What `generate_api_tests` builds as `tests_generated`: the models directory
      is searched in `repoPath`, controllers are read from the repository the
      summary names. */
  function GeneratedTests(summary: ScanResult, repoPath: string, baseUrl: string, remote: Remote,
                          local: LocalFs, render: Payload -> string): Outcome<seq<Test>>
    requires remote.TreeOf(repoPath, DefaultBranch).Valid()
  {
    var modelsDir := ModelsDirFrom(remote.TreeOf(repoPath, DefaultBranch), [ModelsBase]);
    var s := Settings(baseUrl, modelsDir, local, render);
    Collect(TestOf(s), ReadableEndpoints(remote.TreeOf(summary.repo, DefaultBranch), summary.endpointsFound))
  }

  /** `generate_api_tests`, lines 151-218: find the models directory, then for each
      reported file read the controller (skipping the file when that fails) and
      append one test per endpoint. */
  method GenerateApiTests(summary: ScanResult, repoPath: string, baseUrl: string, remote: Remote,
                          local: LocalFs, render: Payload -> string) returns (out: Outcome<seq<Test>>)
    requires remote.TreeOf(repoPath, DefaultBranch).Valid()
    ensures out == GeneratedTests(summary, repoPath, baseUrl, remote, local, render)
  {
    var modelsDir := FindModelsDirGithub(remote, repoPath, DefaultBranch);
    var s := Settings(baseUrl, modelsDir, local, render);
    var controllers := remote.TreeOf(summary.repo, DefaultBranch);
    var entries := summary.endpointsFound;
    ghost var whole := Collect(TestOf(s), ReadableEndpoints(controllers, entries));
    var tests: seq<Test> := [];
    assert entries[0..] == entries;
    ThenNothing(whole);
    for i := 0 to |entries|
      invariant Then(tests, Collect(TestOf(s), ReadableEndpoints(controllers, entries[i..]))) == whole
    {
      ghost var rest := ReadableEndpoints(controllers, entries[i + 1..]);
      var content := controllers.Read(entries[i].file);
      if content.Some? {
        var eps := entries[i].endpoints;
        ReadableTake(controllers, entries, i, content.value);
        for j := 0 to |eps|
          invariant Then(tests, Collect(TestOf(s), Paired(content.value, eps[j..]) + rest)) == whole
        {
          CollectStep(TestOf(s), content.value, eps, j, rest);
          var test := BuildTest(s, content.value, eps[j]);
          if test.Crashed? {
            return Crashed;
          }
          ThenStep(tests, test.value, Collect(TestOf(s), Paired(content.value, eps[j + 1..]) + rest), whole);
          tests := tests + [test.value];
        }
        PairedEnd(content.value, eps, rest);
      } else {
        ReadableSkip(controllers, entries, i);
      }
    }
    assert entries[|entries|..] == [];
    assert tests + [] == tests;
    out := Done(tests);
  }

  /** The loop over one file's endpoints takes them one at a time. */
  lemma CollectStep<T>(f: ((string, Endpoint)) -> Outcome<T>, content: string, eps: seq<Endpoint>, j: nat,
                       rest: seq<(string, Endpoint)>)
    requires j < |eps|
    ensures Collect(f, Paired(content, eps[j..]) + rest) ==
      match f((content, eps[j]))
      case Crashed => Crashed
      case Done(t) => Prepend(t, Collect(f, Paired(content, eps[j + 1..]) + rest))
  {
    var xs := Paired(content, eps[j..]) + rest;
    assert eps[j..][1..] == eps[j + 1..];
    assert xs[0] == (content, eps[j]);
    assert xs[1..] == Paired(content, eps[j + 1..]) + rest;
  }

  lemma PairedEnd(content: string, eps: seq<Endpoint>, rest: seq<(string, Endpoint)>)
    ensures Paired(content, eps[|eps|..]) + rest == rest
  {
    assert eps[|eps|..] == [];
  }

  /** A readable file contributes its endpoints before those of the files after
      it. */
  lemma ReadableTake(controllers: Tree, entries: seq<FileEndpoints>, i: nat, content: string)
    requires i < |entries| && controllers.Read(entries[i].file) == Some(content)
    ensures ReadableEndpoints(controllers, entries[i..]) ==
      Paired(content, entries[i].endpoints[0..]) + ReadableEndpoints(controllers, entries[i + 1..])
  {
    assert entries[i..][1..] == entries[i + 1..];
    assert entries[i].endpoints[0..] == entries[i].endpoints;
  }

  /** An unreadable file contributes nothing. */
  lemma ReadableSkip(controllers: Tree, entries: seq<FileEndpoints>, i: nat)
    requires i < |entries| && controllers.Read(entries[i].file).None?
    ensures ReadableEndpoints(controllers, entries[i..]) == ReadableEndpoints(controllers, entries[i + 1..])
  {
    assert entries[i..][1..] == entries[i + 1..];
  }

  lemma ThenStep<T>(done: seq<T>, t: T, rest: Outcome<seq<T>>, whole: Outcome<seq<T>>)
    requires Then(done, Prepend(t, rest)) == whole
    ensures Then(done + [t], rest) == whole
  {
    if rest.Done? {
      assert done + ([t] + rest.value) == (done + [t]) + rest.value;
    }
  }

  lemma ThenNothing<T>(rest: Outcome<seq<T>>)
    ensures Then([], rest) == rest
  {
    if rest.Done? {
      assert [] + rest.value == rest.value;
    }
  }

  // What the loop produces.

  /** A run that completes has one result per element, each the element's own. */
  lemma {:induction false} CollectDone<X, T>(f: X -> Outcome<T>, xs: seq<X>, ts: seq<T>)
    requires Collect(f, xs) == Done(ts)
    ensures |ts| == |xs|
    ensures forall i :: 0 <= i < |xs| ==> f(xs[i]) == Done(ts[i])
    decreases |xs|
  {
    if xs != [] {
      var rest := Collect(f, xs[1..]);
      assert rest.Done? && ts == [f(xs[0]).value] + rest.value;
      CollectDone(f, xs[1..], rest.value);
      assert forall i :: 1 <= i < |xs| ==> xs[i] == xs[1..][i - 1] && ts[i] == rest.value[i - 1];
    }
  }

  /** A run raises exactly when one of its elements does. */
  lemma {:induction false} CollectCrashed<X, T>(f: X -> Outcome<T>, xs: seq<X>)
    ensures Collect(f, xs).Crashed? <==> exists i :: 0 <= i < |xs| && f(xs[i]).Crashed?
    decreases |xs|
  {
    if xs != [] {
      CollectCrashed(f, xs[1..]);
      if f(xs[0]).Done? {
        if exists i :: 0 <= i < |xs| && f(xs[i]).Crashed? {
          var i :| 0 <= i < |xs| && f(xs[i]).Crashed?;
          assert xs[1..][i - 1] == xs[i];
        }
        if exists i :: 0 <= i < |xs[1..]| && f(xs[1..][i]).Crashed? {
          var i :| 0 <= i < |xs[1..]| && f(xs[1..][i]).Crashed?;
          assert xs[1..][i] == xs[i + 1];
        }
      }
    }
  }

  /** One test per endpoint of each readable file, in file-then-endpoint order:
      the i-th test is named after the i-th such endpoint, checks the status code
      and sends that endpoint's raw path. */
  lemma GeneratedOrder(s: Settings, controllers: Tree, entries: seq<FileEndpoints>, ts: seq<Test>)
    requires Collect(TestOf(s), ReadableEndpoints(controllers, entries)) == Done(ts)
    ensures |ts| == |ReadableEndpoints(controllers, entries)|
    ensures forall i :: 0 <= i < |ts| ==>
      var ep := ReadableEndpoints(controllers, entries)[i].1;
      ts[i].testName == TestName(ep.verb, ep.path) &&
      Contains(ts[i].code, StatusLine) && Contains(ts[i].code, UrlLine(ep.path))
  {
    var xs := ReadableEndpoints(controllers, entries);
    CollectDone(TestOf(s), xs, ts);
    forall i | 0 <= i < |ts|
      ensures ts[i].testName == TestName(xs[i].1.verb, xs[i].1.path)
      ensures Contains(ts[i].code, StatusLine) && Contains(ts[i].code, UrlLine(xs[i].1.path))
    {
      TestForShape(s, xs[i].0, xs[i].1, ts[i]);
    }
  }

  lemma {:induction false} ReadableAppend(controllers: Tree, a: seq<FileEndpoints>, b: seq<FileEndpoints>)
    ensures ReadableEndpoints(controllers, a + b) ==
      ReadableEndpoints(controllers, a) + ReadableEndpoints(controllers, b)
    decreases |a|
  {
    if a == [] {
      assert a + b == b;
    } else {
      assert (a + b)[0] == a[0] && (a + b)[1..] == a[1..] + b;
      ReadableAppend(controllers, a[1..], b);
    }
  }

  /** A controller that cannot be read drops exactly its own endpoints: the files
      before and after it are handled as if it were not in the summary. */
  lemma ReadFailureDropsFile(controllers: Tree, a: seq<FileEndpoints>, e: FileEndpoints, b: seq<FileEndpoints>)
    requires controllers.Read(e.file).None?
    ensures ReadableEndpoints(controllers, a + [e] + b) == ReadableEndpoints(controllers, a + b)
  {
    ReadableAppend(controllers, a + [e], b);
    ReadableAppend(controllers, a, [e]);
    ReadableAppend(controllers, a, b);
    assert ReadableEndpoints(controllers, [e]) == [] + ReadableEndpoints(controllers, []);
  }

  /** A readable controller contributes every one of its endpoints, in order,
      between those of the files before and after it. */
  lemma ReadableFileKept(controllers: Tree, a: seq<FileEndpoints>, e: FileEndpoints, b: seq<FileEndpoints>)
    requires controllers.Read(e.file).Some?
    ensures ReadableEndpoints(controllers, a + [e] + b) ==
      ReadableEndpoints(controllers, a) + Paired(controllers.Read(e.file).value, e.endpoints) +
      ReadableEndpoints(controllers, b)
  {
    ReadableAppend(controllers, a + [e], b);
    ReadableAppend(controllers, a, [e]);
    assert ReadableEndpoints(controllers, [e]) ==
      Paired(controllers.Read(e.file).value, e.endpoints) + ReadableEndpoints(controllers, []);
  }

  /** The whole generation raises exactly when some endpoint of a readable file
      picks a model file that cannot be opened. */
  lemma CrashIff(s: Settings, controllers: Tree, entries: seq<FileEndpoints>)
    ensures Collect(TestOf(s), ReadableEndpoints(controllers, entries)).Crashed? <==>
      exists i :: 0 <= i < |ReadableEndpoints(controllers, entries)| &&
        RequestFor(s, ReadableEndpoints(controllers, entries)[i].0,
                   ReadableEndpoints(controllers, entries)[i].1).Crashed?
  {
    var xs := ReadableEndpoints(controllers, entries);
    CollectCrashed(TestOf(s), xs);
    assert forall i :: 0 <= i < |xs| ==>
      (TestFor(s, xs[i].0, xs[i].1).Crashed? <==> RequestFor(s, xs[i].0, xs[i].1).Crashed?);
  }

  /** The models directory the search hands over is never empty, so the source's
      `if not models_dir` tests for its presence. */
  lemma ModelsDirNonEmpty(t: Tree, p: string)
    requires t.Valid() && ModelsDirFrom(t, [ModelsBase]) == Some(p)
    ensures p != ""
  {
    var i, k := ModelsDirFound(t, p);
  }

  /** The body type the controller search hands over is never empty either. */
  lemma ModelNameNonEmpty(content: string, httpMethod: string, path: string, ty: string)
    requires ControllerBinder.DetectModel(content, httpMethod, path) == Some(ty)
    ensures ty != ""
  {
    var k, h := ControllerBinder.DetectSound(content, httpMethod, path, ty);
  }
}
