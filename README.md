# Spring REST endpoints to pytest stubs: a Dafny model

The system is a two-stage agent pipeline.
- **Stage 1**, the repository scanner, walks a GitHub repository breadth-first through the contents API. It lists directories and skips hidden ones. It reads every `.java` file and keeps the Spring controllers. For each controller it records the `@GetMapping`, `@PostMapping`, `@PutMapping` and `@DeleteMapping` annotations it finds, with their paths.
- **Stage 2**, the test generator, turns that summary into pytest functions, one per endpoint.
  - It first searches the repository's `src/main/java` for a `model`/`models` directory.
  - For a post or put it looks in the controller for the handler's `@RequestBody` type. It finds `<Type>.java` under the models directory and builds a dummy JSON payload from the model's fields.

This project models both stages as Dafny datatypes, functions, methods and lemmas.

| Dafny module | what it models |
|---|---|
| `Wrappers` | `Option` |
| `Text` | The string operations the source uses: `startswith`, `in`, `lower`, `replace`, `strip`, `"\n".join`. Also the ASCII classes `\s` and `\w`. |
| `EndpointExtractor` | `extract_endpoints`: the annotation regex, as a left-to-right scan. |
| `RepoTree` | The remote repository and the FIFO worklist that both stages use. |
| `RepoScanner` | `repo_scan_logic_github`. |
| `ModelFields` | `extract_model_fields`, `dummy_value` and `build_payload`. |
| `ControllerBinder` | `detect_model_from_controller`: the handler-signature regex. |
| `ModelLocator` | `find_model_file` and `find_models_dir_github`. |
| `TestGenerator` | The endpoint loop of `generate_api_tests`. |

The model abstracts the environment as follows:
- **Remote repository.** A `Remote` maps a (repository, branch) pair to a `Tree`. A tree holds one listing per directory path and one text per file path.
  - A path missing from either map is a failed call. Stage 1 and the controller reads of stage 2 catch every exception, so there a failed call is skipped. The models-directory search skips a non-200 listing and catches nothing; a missing listing models that skip only (see "## Left out").
  - The contents API (stage 1) and `raw.githubusercontent.com` (stage 2) are the same `Tree.Read`.
  - `Tree.Valid` says that listings have the contents API's shape: an entry's path is its directory's path, a slash, and its non-empty, slash-free name. Termination of both breadth-first loops is proved from this.
- **Local file system.** A `LocalFs` gives what `os.walk` yields under a directory, as a sequence of `(root, files)` steps, and the files `open` can read.
- **Payload rendering.** `json.dumps(payload, indent=4)` is the function parameter `render`.

Each loop of the source is a Dafny `method` with loop invariants. Its `ensures` ties the result to a specification function, and the lemmas prove what the source promises about that function.
- `ExtractEndpoints`, `ExtractModelFields`, `RepoScan`, `FindModelFile`, `FindModelsDirGithub`, `BuildTest` and `GenerateApiTests` each have such a specification function.
- The regexes are modelled as positional matchers, and both directions are proved: every well-formed occurrence matches, and every match is a well-formed occurrence.
- `@{http_method}Mapping` builds a regex from the verb stem. Those stems are letters only, so the model treats them as literal text, as it does the `re.escape`d path.

## Model

| member | source | states |
|---|---|---|
| EndpointExtractor.ExtractEndpoints | src/agents/repo_scanner/repo_scanner_agent.py:11-19 | The loop returns the endpoints of the left-to-right, non-overlapping scan of the file text. |
| EndpointExtractor.EndpointsWellFormed | src/agents/repo_scanner/repo_scanner_agent.py:14-18 | Every reported endpoint's verb is one of the four annotation names, with `Mapping` kept. Its path is non-empty and holds no `"`. |
| EndpointExtractor.MatchAnnotation | src/agents/repo_scanner/repo_scanner_agent.py:15 | A well-formed annotation `@XMapping("p")` at a position is matched there, with exactly that verb and path, and the scan resumes right after it. |
| EndpointExtractor.MatchSound | src/agents/repo_scanner/repo_scanner_agent.py:15 | Whatever matches at a position is the literal text of a well-formed annotation at that position. |
| EndpointExtractor.EndpointsSkipFiller | src/agents/repo_scanner/repo_scanner_agent.py:14-17 | Text without `@` yields no endpoint. |
| EndpointExtractor.OpeningFreeOf | src/agents/repo_scanner/repo_scanner_agent.py:15 | Text in which no `@` is followed by `G`, `P` or `D` holds no start of a route annotation. |
| EndpointExtractor.ExtractLayout | src/agents/repo_scanner/repo_scanner_agent.py:14-18 | A file made of a header, then well-formed annotations each followed by arbitrary code, yields exactly those endpoints in source order. The header and the code may hold other annotations, such as `@RestController` or `@RequestBody`; they must only not start `@GetMapping("`, `@PostMapping("`, `@PutMapping("` or `@DeleteMapping("`. |
| EndpointExtractor.UsersControllerEndpoints | src/agents/repo_scanner/repo_scanner_agent.py:14-18 | A `@RestController` class with one `@GetMapping("/users")` handler yields the single endpoint `GetMapping /users`. |
| EndpointExtractor.ExtractEmptyIff | src/agents/repo_scanner/repo_scanner_agent.py:14-19 | The result is empty if and only if no well-formed annotation occurs anywhere in the text. |
| RepoTree.NextDecreases | src/agents/repo_scanner/repo_scanner_agent.py:47-62 | On a valid tree, every pop of the queue lowers the remaining work by exactly one, so the traversal ends. |
| RepoTree.VisitsKeepQueueOrder | src/agents/repo_scanner/repo_scanner_agent.py:45-48 | FIFO order: the queued paths are listed in queue order, before anything enqueued later. |
| RepoTree.VisitsProvenance | src/agents/repo_scanner/repo_scanner_agent.py:45-62 | Every listed path was in the initial queue or was enqueued from the listing of a directory listed earlier. |
| RepoTree.VisitsClosed | src/agents/repo_scanner/repo_scanner_agent.py:55-62 | Every directory that a listed directory enqueues is itself listed later in the same traversal. |
| RepoScanner.RepoScan | src/agents/repo_scanner/repo_scanner_agent.py:41-77 | The result names the scanned repository. Its `endpoints_found` is the breadth-first scan from the root of that repository at that branch. |
| RepoScanner.ScanListing | src/agents/repo_scanner/repo_scanner_agent.py:55-72 | One listing, in order: each non-hidden directory is appended to the queue and each qualifying controller to the summary. Nothing else changes. |
| RepoScanner.ReadController | src/agents/repo_scanner/repo_scanner_agent.py:63-72 | An entry yields a summary entry when it is a readable `.java` file that mentions `@RestController` or `@Controller` and has at least one endpoint. That entry holds the file's path and its endpoints. Otherwise it yields nothing. |
| RepoScanner.ScanFollowsVisits | src/agents/repo_scanner/repo_scanner_agent.py:45-70 | The summary is the concatenation of each listed directory's reports, in breadth-first listing order. |
| RepoScanner.ScanReportsExactly | src/agents/repo_scanner/repo_scanner_agent.py:55-70 | An entry is in the summary if and only if it is the report of a qualifying file in a directory the scan lists. |
| RepoScanner.HiddenSubtreeNeverListed | src/agents/repo_scanner/repo_scanner_agent.py:56-60 | No path at or below a hidden directory is ever listed. |
| RepoScanner.HiddenSubtreeNeverReported | src/agents/repo_scanner/repo_scanner_agent.py:56-60 | No file at or below a hidden directory is ever reported. |
| RepoScanner.ReadFailureSkipsOnlyThatFile | src/agents/repo_scanner/repo_scanner_agent.py:64-72 | An unreadable file drops only its own report. The rest of the listing is reported as if it were absent. |
| RepoScanner.ListingFailureSkipsOnlyThatDirectory | src/agents/repo_scanner/repo_scanner_agent.py:49-53 | A directory whose listing fails contributes nothing. The scan carries on with the rest of the queue. |
| ModelFields.ExtractModelFields | src/agents/test_generator/test_generator_agent.py:14-20 | The loop returns the name-to-type map of the field declarations found by the scan, with a later declaration of a name overriding an earlier one. |
| ModelFields.MatchDecl | src/agents/test_generator/test_generator_agent.py:17 | A declaration `private/public/protected <ws> Type <ws> name;` is matched at its position, with that type and that name. |
| ModelFields.MatchSound | src/agents/test_generator/test_generator_agent.py:17 | Every match is such a declaration, written out in the text at that position. |
| ModelFields.FieldsSkipFiller | src/agents/test_generator/test_generator_agent.py:17 | Text without `p` declares no field. |
| ModelFields.FieldMapKeys | src/agents/test_generator/test_generator_agent.py:16-19 | The keys of the field map are exactly the declared names. |
| ModelFields.LastDeclarationWins | src/agents/test_generator/test_generator_agent.py:18-19 | A name maps to the type of its last declaration. |
| ModelFields.FieldFreeWithoutSemicolon | src/agents/test_generator/test_generator_agent.py:17 | Text without `;` declares no field: every match ends with a semicolon. |
| ModelFields.ModelTextFields | src/agents/test_generator/test_generator_agent.py:14-19 | A file made of a header, then declarations with any of the three qualifiers and any blanks, each followed by arbitrary code, yields exactly those declarations in order. The header and the code must only declare nothing on their own. A declaration cannot be matched from a position inside the code before it. |
| ModelFields.ModelTextLastWins | src/agents/test_generator/test_generator_agent.py:14-20 | In such a file the extracted keys are exactly the declared names, and each maps to its last declared type. |
| ModelFields.DummyValue | src/agents/test_generator/test_generator_agent.py:22-32 | The value is one of the five table values, and any type outside the six listed gives `"dummy"`. |
| ModelFields.DummyValueTable | src/agents/test_generator/test_generator_agent.py:22-32 | `int` and `long` give 1, `double` and `float` give 1.0, `String` gives `"test"` and `boolean` gives `true`. Every other type gives `"dummy"`. Both directions are stated. |
| ModelFields.BuildPayload | src/agents/test_generator/test_generator_agent.py:34-39 | The payload has exactly the model's field names as keys. Each value is `dummy_value` of that field's extracted type, and so one of the five table values. |
| ModelFields.UserModelFields | src/agents/test_generator/test_generator_agent.py:14-20 | An `@Entity` class `User` declaring `private String name;` and `private int age;` has the fields `name: String` and `age: int`. |
| ModelFields.UserModelPayload | src/agents/test_generator/test_generator_agent.py:14-39 | That class gives the payload `{"name": "test", "age": 1}`. |
| ControllerBinder.HandlerAtText | src/agents/test_generator/test_generator_agent.py:44 | A handler sits at a position if and only if the annotation, `public`, the return type, the method name, `(`, `@RequestBody` and a maximal body-type word are written there, with the required blanks. |
| ControllerBinder.MatchHandlerOf | src/agents/test_generator/test_generator_agent.py:43-46 | A handler written at a position is matched there, and its body type is captured. |
| ControllerBinder.MatchHandlerSound | src/agents/test_generator/test_generator_agent.py:43-46 | Whatever matches at a position is such a handler. |
| ControllerBinder.DetectModel | src/agents/test_generator/test_generator_agent.py:41-49 | A returned type is a `\w+` word, and the controller contains the exact annotation `@<method>Mapping("<path>")`. |
| ControllerBinder.DetectSound | src/agents/test_generator/test_generator_agent.py:41-49 | A returned type is the body type of the first handler for exactly this verb and path. |
| ControllerBinder.DetectFirst | src/agents/test_generator/test_generator_agent.py:46-48 | The first handler for this verb and path determines the result. |
| ControllerBinder.DetectNoneIff | src/agents/test_generator/test_generator_agent.py:46-49 | The result is `None` if and only if the controller has no such handler anywhere. |
| ModelLocator.FindModelFile | src/agents/test_generator/test_generator_agent.py:51-57 | The nested loops return the first file named `<model>.java` in walk order, joined to its root, or `None`. |
| ModelLocator.ModelFileFound | src/agents/test_generator/test_generator_agent.py:53-56 | A returned path is `root/<model>.java` for the first walk step that holds that file. No earlier step holds it. |
| ModelLocator.ModelFileAbsent | src/agents/test_generator/test_generator_agent.py:53-57 | The result is `None` if and only if no walk step holds `<model>.java`. |
| ModelLocator.FindModelsDirGithub | src/agents/test_generator/test_generator_agent.py:114-137 | The loop returns the breadth-first search from `src/main/java` for a directory named `model` or `models`, in any case. |
| ModelLocator.SearchListing | src/agents/test_generator/test_generator_agent.py:131-135 | One listing returns the first models directory in it. When there is none, it appends every subdirectory to the queue, hidden ones included. |
| ModelLocator.ModelsDirFollowsVisits | src/agents/test_generator/test_generator_agent.py:119-135 | The result is the first models directory along the breadth-first listing order, with no hidden-directory skipping. |
| ModelLocator.ModelsDirFound | src/agents/test_generator/test_generator_agent.py:130-134 | A returned path is a models-directory entry of a listed directory. No directory listed earlier, and no earlier entry of the same listing, is one. |
| ModelLocator.ModelsDirAbsent | src/agents/test_generator/test_generator_agent.py:122-137 | The result is `None` if and only if no listed directory has a models-directory entry. |
| ModelLocator.HiddenDirectoriesSearched | src/agents/test_generator/test_generator_agent.py:131-135 | Unlike the scanner, this search descends into hidden subdirectories of every listed directory. |
| TestGenerator.MethodNames | src/agents/test_generator/test_generator_agent.py:176 | The four annotations give the `requests` functions `get`, `post`, `put` and `delete`, and the stems `Get`, `Post`, `Put` and `Delete`. |
| TestGenerator.TestName | src/agents/test_generator/test_generator_agent.py:176-178 | A test name starts with `test_` and ends with `_` and the cleaned path. |
| TestGenerator.TestNameShape | src/agents/test_generator/test_generator_agent.py:176-178 | A test name uses one of the four method names and never contains `/`, `{` or `}`. |
| TestGenerator.TestNameExample | src/agents/test_generator/test_generator_agent.py:178 | `GetMapping("/users/{id}")` is named `test_get_users_id`. |
| TestGenerator.RequestFor | src/agents/test_generator/test_generator_agent.py:193-199 | A request goes out bare if and only if the verb is not post or put, or no models directory was found. A payload is either `{"dummy": "data"}` or `build_payload` of a readable local file. The step raises only after the controller names a body type. |
| TestGenerator.DummyWithoutHandler | src/agents/test_generator/test_generator_agent.py:193-196 | A post or put whose controller has no handler for this verb and path sends `{"dummy": "data"}`. This applies when a models directory exists. |
| TestGenerator.DummyWithoutModelFile | src/agents/test_generator/test_generator_agent.py:194-198 | A post or put whose handler's body type has no `.java` file under the models directory also sends the dummy payload. |
| TestGenerator.PayloadFromModel | src/agents/test_generator/test_generator_agent.py:194-199 | When the body type's file is found, the payload is built from that file's text. When the file cannot be opened, the generation raises. |
| TestGenerator.BuildTest | src/agents/test_generator/test_generator_agent.py:176-218 | Appending the code lines one by one builds the endpoint's test. |
| TestGenerator.TestFor | src/agents/test_generator/test_generator_agent.py:176-213 | The test for one endpoint raises exactly when choosing its request raises, and a produced test carries the endpoint's test name. |
| TestGenerator.TestForShape | src/agents/test_generator/test_generator_agent.py:178-213 | Every test is named after its endpoint. Its code carries the base URL, the status assertion, and the line `url = substitute_path(f"{BASE_URL}<path>")` with the endpoint's raw path. |
| TestGenerator.PayloadLineIff | src/agents/test_generator/test_generator_agent.py:201-213 | A test has a `payload = ` line if and only if its request carries a payload. |
| TestGenerator.GenerateApiTests | src/agents/test_generator/test_generator_agent.py:151-218 | The nested loops produce the tests of every readable controller's endpoints, in order. If any model file cannot be opened, the whole call raises. |
| TestGenerator.GeneratedOrder | src/agents/test_generator/test_generator_agent.py:161-218 | There is exactly one test per endpoint of each readable file, in file-then-endpoint order. The i-th test is named after the i-th endpoint, and its code contains the `url = substitute_path(...)` line with that endpoint's raw path. |
| TestGenerator.ReadFailureDropsFile | src/agents/test_generator/test_generator_agent.py:164-173 | A controller that cannot be read drops exactly its own endpoints. |
| TestGenerator.ReadableFileKept | src/agents/test_generator/test_generator_agent.py:164-175 | A readable controller contributes all its endpoints, in order, between those of the files around it. |
| TestGenerator.CrashIff | src/agents/test_generator/test_generator_agent.py:34-37 | The generation raises if and only if some endpoint picks a model file that cannot be opened. |
| TestGenerator.ModelsDirNonEmpty | src/agents/test_generator/test_generator_agent.py:153-154 | A found models directory is never empty, so `if not models_dir` tests for absence only. |
| TestGenerator.ModelNameNonEmpty | src/agents/test_generator/test_generator_agent.py:196 | A detected model name is never empty, so `if model_name` tests for presence only. |

## Left out

- HTTP and transport are not modelled: `requests.get`, status codes, `raise_for_status`, base64 decoding, the `GITHUB_TOKEN` header, URLs and rate limits. A failed call is an absent map entry.
- Logging (`print`) is not modelled. It changes no state the stages use.
- Only ASCII is modelled. `str.lower`, `\s` and `\w` use ASCII classes, not Unicode ones.
- The order in which `os.walk` yields directories is an input to the model: a given sequence of steps. It is not derived from a file system.
- `json.loads` of the summary string is not modelled. The generator takes the scanner's result as a structured `ScanResult`, so a malformed summary or missing keys are not modelled.
- `json.dumps` is the abstract `render` parameter. Nothing is proved about the JSON text beyond the line it sits on.
- Floating point: `1.0` is a tagged float value in the payload, not an IEEE number.
- Lines 220-222 of the generator, writing `test_api.py`, are not modelled. That code joins dictionaries with `"\n".join`, which raises `TypeError` once any test exists, and it writes to the working directory. The model stops at the `tests_generated` list.
- The return value's `"repo"` key (line 225) is not modelled: it is the `repo_path` input unchanged.
- `find_models_dir` (lines 61-95, local `Path` search) is not modelled. Nothing calls it.
- `scan_repo_github`, the `Agent` definitions and the workflow that chains the stages are not modelled. They are framework plumbing.
- The runtime behaviour of the generated pytest code is not modelled. This includes `substitute_path`, which the generated code calls but does not define, and how Python evaluates the f-string around the path. The model proves only which lines each test contains.
- ModelLocator.FindModelsDirGithub: a transport exception from `requests.get` (line 125) or from `resp.json()` (line 130) is not caught, and it ends `generate_api_tests` at line 153. The model has one kind of failed listing, the non-200 status that lines 127-128 skip.
- ModelFields.ModelTextFields, EndpointExtractor.ExtractLayout: these describe files built from a header, matched items and gaps. A file whose gaps hold text the pattern would match is covered only by the general scan specification that `ExtractModelFields` and `ExtractEndpoints` are proved against.
- RepoScanner.RepoScan: the `path` parameter is ignored, as in the source. The scan always starts at the root.
- RepoScanner.RepoScan, ModelLocator.FindModelsDirGithub, TestGenerator.GenerateApiTests: these require the tree to be `Valid`, meaning its listings have the contents API's shape. This is an assumption about the server, used to prove termination. A server whose listings loop would make the source run forever.
- TestGenerator.RequestFor: the three truthiness tests at lines 193, 196 and 198 are modelled as presence tests. `ModelsDirNonEmpty` and `ModelNameNonEmpty` show that the values are never empty. A joined path ends in `.java`, so it is not empty either.
- TestGenerator.GenerateApiTests: the models directory is a repository-relative path found on the remote, but `find_model_file` walks it on the local file system. The model keeps this mismatch: the walk is looked up by that same string in `LocalFs`.
- ModelLocator.OsJoin: promises only that the joined path ends with the file name. This is enough to show that `if model_file` tests for presence. Its handling of a leading `/` and of a trailing `/` follows `posixpath.join`, but no lemma states it.
