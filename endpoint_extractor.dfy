/** The lexical endpoint matcher of the repository scanner: every non-overlapping
    occurrence of `@(GetMapping|PostMapping|PutMapping|DeleteMapping)\("([^"]+)"\)`,
    left to right, written out as a hand-made matcher for exactly that pattern. */
module EndpointExtractor {
  import opened Wrappers
  import opened Text

  /** One route as the scanner reports it: the annotation name, `Mapping` suffix
      included, and the literal path argument. */
  datatype Endpoint = Endpoint(verb: string, path: string)

  /** The four annotation names of the pattern, in its alternation order. */
  const Verbs: seq<string> := ["GetMapping", "PostMapping", "PutMapping", "DeleteMapping"]

  /** What a match can produce: a known annotation and a non-empty path without `"`. */
  predicate WellFormed(e: Endpoint) {
    e.verb in Verbs && e.path != [] && '"' !in e.path
  }

  /** The exact source text of a matched annotation. */
  function Annotation(e: Endpoint): string {
    Opening(e.verb) + e.path + "\")"
  }

  /** `@`, the annotation name, `(` and the opening quote. */
  function Opening(verb: string): string {
    "@" + verb + "(\""
  }

  /** The first of `vs` whose opening occurs at position `k` of `t`. */
  function FirstOpening(t: string, k: nat, vs: seq<string>): (r: Option<string>)
    ensures r.Some? ==> r.value in vs && PieceAt(t, k, Opening(r.value))
    decreases |vs|
  {
    if vs == [] then None
    else if PieceAt(t, k, Opening(vs[0])) then Some(vs[0])
    else FirstOpening(t, k, vs[1..])
  }

  /** The annotation name whose opening occurs at position `k`, tried in
      alternation order. */
  function VerbAt(t: string, k: nat): Option<string> {
    FirstOpening(t, k, Verbs)
  }

  /** Where a greedy `[^"]*` that starts at position `j` stops: the first `"` at or
      after `j`, or the end of the text. */
  function QuoteEnd(t: string, j: nat): (q: nat)
    requires j <= |t|
    ensures j <= q <= |t|
    decreases |t| - j
  {
    if j < |t| && t[j] != '"' then QuoteEnd(t, j + 1) else j
  }

  /** `([^"]+)"\)` from position `j`, after the opening of annotation `v`: the
      endpoint and the position just past the match. */
  function MatchPath(t: string, v: string, j: nat): (r: Option<(Endpoint, nat)>)
    requires j <= |t|
    ensures r.Some? ==> j < r.value.1 <= |t|
  {
    var q := QuoteEnd(t, j);
    if j < q && q + 1 < |t| && t[q + 1] == ')' then Some((Endpoint(v, t[j..q]), q + 2))
    else None
  }

  /** The pattern at position `k` of `t`: the endpoint and the position just past
      the matched text. */
  function MatchEndpoint(t: string, k: nat): (r: Option<(Endpoint, nat)>)
    requires k <= |t|
    ensures r.Some? ==> k < r.value.1 <= |t|
  {
    match VerbAt(t, k)
    case None => None
    case Some(v) => MatchPath(t, v, k + |Opening(v)|)
  }

  /** `re.finditer` over the pattern from position `k` on, keeping each match's two
      groups. */
  function EndpointsFrom(t: string, k: nat): seq<Endpoint>
    requires k <= |t|
    decreases |t| - k, 1
  {
    if k == |t| then [] else EndpointsFromAt(t, k)
  }

  /** One step of the search: a match at `k` is taken and the search resumes after
      it, otherwise the search moves one character on. */
  function EndpointsFromAt(t: string, k: nat): seq<Endpoint>
    requires k < |t|
    decreases |t| - k, 0
  {
    match MatchEndpoint(t, k)
    case Some((e, n)) => [e] + EndpointsFrom(t, n)
    case None => EndpointsFrom(t, k + 1)
  }

  /** The endpoints of a whole file. */
  function EndpointsIn(t: string): seq<Endpoint> {
    EndpointsFrom(t, 0)
  }

  /** `extract_endpoints`: the scan loop that appends each match in turn. */
  method ExtractEndpoints(text: string) returns (endpoints: seq<Endpoint>)
    ensures endpoints == EndpointsIn(text)
  {
    endpoints := [];
    var i := 0;
    while i < |text|
      invariant 0 <= i <= |text|
      invariant endpoints + EndpointsFrom(text, i) == EndpointsIn(text)
      decreases |text| - i
    {
      var m := MatchEndpoint(text, i);
      if m.Some? {
        var (e, n) := m.value;
        EndpointsMatchStep(text, i, e, n);
        AppendStep(endpoints, e, EndpointsFrom(text, i), EndpointsFrom(text, n), EndpointsIn(text));
        endpoints := endpoints + [e];
        i := n;
      } else {
        EndpointsMissStep(text, i);
        i := i + 1;
      }
    }
    assert EndpointsFrom(text, i) == [];
    assert endpoints + [] == endpoints;
  }

  /** One step of `finditer` where an annotation starts at `k`. */
  lemma EndpointsMatchStep(t: string, k: nat, e: Endpoint, n: nat)
    requires k < |t| && MatchEndpoint(t, k) == Some((e, n))
    ensures EndpointsFrom(t, k) == [e] + EndpointsFrom(t, n)
  {
    assert EndpointsFrom(t, k) == EndpointsFromAt(t, k);
  }

  /** One step of `finditer` where no annotation starts at `k`. */
  lemma EndpointsMissStep(t: string, k: nat)
    requires k < |t| && MatchEndpoint(t, k).None?
    ensures EndpointsFrom(t, k) == EndpointsFrom(t, k + 1)
  {
    assert EndpointsFrom(t, k) == EndpointsFromAt(t, k);
  }

  // The stages of the pattern.

  /** `[^"]*` takes only characters other than `"`, and stops at the end or at a
      `"`. */
  lemma {:induction false} QuoteEndRun(t: string, j: nat)
    requires j <= |t|
    ensures forall i :: j <= i < QuoteEnd(t, j) ==> t[i] != '"'
    ensures QuoteEnd(t, j) < |t| ==> t[QuoteEnd(t, j)] == '"'
    decreases |t| - j
  {
    if j < |t| && t[j] != '"' {
      QuoteEndRun(t, j + 1);
    }
  }

  /** Over a path without `"` that is followed by a `"`, `[^"]*` stops at that `"`. */
  lemma QuoteEndOfPath(t: string, j: nat, q: nat)
    requires j <= q < |t| && t[q] == '"'
    requires forall i :: j <= i < q ==> t[i] != '"'
    ensures QuoteEnd(t, j) == q
  {
    QuoteEndRun(t, j);
  }

  /** The second and third characters of an opening are the first two of its name. */
  lemma OpeningHead(t: string, k: nat, v: string)
    ensures PieceAt(t, k, Opening(v)) && 2 <= |v| ==> t[k + 1] == v[0] && t[k + 2] == v[1]
  {
    if PieceAt(t, k, Opening(v)) && 2 <= |v| {
      PieceChar(t, k, Opening(v), 1);
      PieceChar(t, k, Opening(v), 2);
    }
  }

  /** Each annotation name is recognised where its opening occurs; the four are told
      apart by their first two letters. */
  lemma VerbAtOf(t: string, k: nat, v: string)
    requires v in Verbs && PieceAt(t, k, Opening(v))
    ensures VerbAt(t, k) == Some(v)
  {
    OpeningHead(t, k, v);
    OpeningHead(t, k, "GetMapping");
    OpeningHead(t, k, "PostMapping");
    OpeningHead(t, k, "PutMapping");
  }

  /** The path stage succeeds on a quote-free run closed by `")`. */
  lemma MatchPathOf(t: string, v: string, j: nat, q: nat, e: Endpoint, stop: nat)
    requires j <= |t| && QuoteEnd(t, j) == q && j < q && q + 1 < |t| && t[q + 1] == ')'
    requires e.verb == v && t[j..q] == e.path && stop == q + 2
    ensures MatchPath(t, v, j) == Some((e, stop))
  {
  }

  /** The pattern succeeds when the opening and then the path stage do. */
  lemma MatchEndpointOf(t: string, k: nat, v: string, j: nat, r: (Endpoint, nat))
    requires k <= |t| && VerbAt(t, k) == Some(v)
    requires j == k + |Opening(v)| && j <= |t| && MatchPath(t, v, j) == Some(r)
    ensures MatchEndpoint(t, k) == Some(r)
  {
  }

  /** A match starts with an opening, and the path stage follows it. */
  lemma MatchEndpointStages(t: string, k: nat, v: string, j: nat)
    requires k <= |t| && MatchEndpoint(t, k).Some?
    requires v == VerbAt(t, k).value && j == k + |Opening(v)|
    ensures VerbAt(t, k) == Some(v) && v in Verbs && PieceAt(t, k, Opening(v))
    ensures j <= |t| && MatchPath(t, v, j) == MatchEndpoint(t, k)
  {
  }

  /** The path stage, taken apart. */
  lemma MatchPathStages(t: string, v: string, j: nat, q: nat)
    requires j <= |t| && MatchPath(t, v, j).Some? && q == QuoteEnd(t, j)
    ensures j < q && q + 1 < |t| && t[q + 1] == ')'
    ensures MatchPath(t, v, j) == Some((Endpoint(v, t[j..q]), q + 2))
  {
  }

  /** The three pieces of an annotation at known positions: the opening at `k`, the
      path at `j` and the closing `")` at `q`. */
  lemma AnnotationPieces(t: string, k: nat, e: Endpoint, j: nat, q: nat)
    requires PieceAt(t, k, Annotation(e))
    requires j == k + |Opening(e.verb)| && q == j + |e.path|
    ensures PieceAt(t, k, Opening(e.verb)) && PieceAt(t, j, e.path) && PieceAt(t, q, "\")")
    ensures k + |Annotation(e)| == q + 2
  {
    PieceSplit(t, k, Opening(e.verb) + e.path, "\")");
    PieceSplit(t, k, Opening(e.verb), e.path);
  }

  /** Completeness over the pieces: the stages succeed and read back `e`. */
  lemma MatchAnnotationAt(t: string, k: nat, e: Endpoint, j: nat, q: nat, stop: nat)
    requires WellFormed(e) && j == k + |Opening(e.verb)| && q == j + |e.path|
    requires PieceAt(t, k, Opening(e.verb)) && PieceAt(t, j, e.path) && PieceAt(t, q, "\")")
    requires stop == q + 2
    ensures MatchEndpoint(t, k) == Some((e, stop))
  {
    VerbAtOf(t, k, e.verb);
    forall i | j <= i < q
      ensures t[i] != '"'
    {
      PieceChar(t, j, e.path, i - j);
    }
    PieceChar(t, q, "\")", 0);
    PieceChar(t, q, "\")", 1);
    QuoteEndOfPath(t, j, q);
    MatchPathOf(t, e.verb, j, q, e, stop);
    MatchEndpointOf(t, k, e.verb, j, (e, stop));
  }

  /** Completeness: the matcher recognises every well-formed annotation, whatever
      surrounds it. */
  lemma MatchAnnotation(t: string, k: nat, e: Endpoint)
    requires WellFormed(e) && PieceAt(t, k, Annotation(e))
    ensures MatchEndpoint(t, k) == Some((e, k + |Annotation(e)|))
  {
    var j := k + |Opening(e.verb)|;
    var q := j + |e.path|;
    AnnotationPieces(t, k, e, j, q);
    MatchAnnotationAt(t, k, e, j, q, k + |Annotation(e)|);
  }

  /** The text the stages read, put back together. */
  lemma SoundPieces(t: string, k: nat, v: string, j: nat, q: nat, e: Endpoint, stop: nat)
    requires PieceAt(t, k, Opening(v)) && j == k + |Opening(v)|
    requires j < q && q + 1 < |t| && t[q + 1] == ')' && q == QuoteEnd(t, j)
    requires e == Endpoint(v, t[j..q]) && stop == q + 2
    ensures e.path != [] && '"' !in e.path
    ensures PieceAt(t, k, Annotation(e)) && stop == k + |Annotation(e)|
  {
    QuoteEndRun(t, j);
    forall i | 0 <= i < q - j
      ensures e.path[i] != '"'
    {
      assert e.path[i] == t[j + i];
    }
    assert t[q..q + 2] == "\")";
    SliceConcat(t, k, j, q);
    SliceConcat(t, k, q, q + 2);
    assert Annotation(e) == t[k..q + 2];
  }

  /** Soundness: whatever the matcher returns is a well-formed annotation that occurs
      at `k`, and the search resumes just past it. */
  lemma MatchSound(t: string, k: nat, e: Endpoint, stop: nat)
    requires k <= |t| && MatchEndpoint(t, k) == Some((e, stop))
    ensures WellFormed(e) && PieceAt(t, k, Annotation(e)) && stop == k + |Annotation(e)|
  {
    var v := VerbAt(t, k).value;
    var j := k + |Opening(v)|;
    MatchEndpointStages(t, k, v, j);
    var q := QuoteEnd(t, j);
    MatchPathStages(t, v, j, q);
    SoundPieces(t, k, v, j, q, e, stop);
  }

  // Properties of the whole scan.

  /** Every reported endpoint is well formed. */
  lemma {:induction false} EndpointsWellFormed(t: string, k: nat)
    requires k <= |t|
    ensures forall e :: e in EndpointsFrom(t, k) ==> WellFormed(e)
    decreases |t| - k
  {
    if k < |t| {
      match MatchEndpoint(t, k)
      case Some((e, n)) =>
        EndpointsMatchStep(t, k, e, n);
        MatchSound(t, k, e, n);
        EndpointsWellFormed(t, n);
      case None =>
        EndpointsMissStep(t, k);
        EndpointsWellFormed(t, k + 1);
    }
  }

  /** Text without an `@` cannot start an annotation and does not disturb what
      follows it. */
  lemma {:induction false} EndpointsSkipFiller(t: string, k: nat, filler: string)
    requires PieceAt(t, k, filler) && '@' !in filler
    ensures EndpointsFrom(t, k) == EndpointsFrom(t, k + |filler|)
    decreases |filler|
  {
    if filler != [] {
      PieceChar(t, k, filler, 0);
      PieceSplit(t, k, [filler[0]], filler[1..]);
      assert [filler[0]] + filler[1..] == filler;
      NoOpeningWithoutAt(t, k);
      EndpointsMissStep(t, k);
      EndpointsSkipFiller(t, k + 1, filler[1..]);
    }
  }

  /** Every opening starts with `@`. */
  lemma NoOpeningWithoutAt(t: string, k: nat)
    requires k < |t| && t[k] != '@'
    ensures MatchEndpoint(t, k).None?
  {
    if VerbAt(t, k).Some? {
      PieceChar(t, k, Opening(VerbAt(t, k).value), 0);
    }
  }

  /** No annotation opening starts anywhere in `s`. Other annotations, such as
      `@RestController`, may occur in it. */
  predicate OpeningFree(s: string) {
    forall i :: 0 <= i < |s| ==> VerbAt(s, i).None?
  }

  /** Only the first character of an opening is an `@`. */
  lemma OpeningTail(v: string, i: nat)
    requires v in Verbs && 1 <= i < |Opening(v)|
    ensures Opening(v)[i] != '@'
  {
  }

  /** Text whose every `@` is followed by a letter other than `G`, `P` and `D`
      starts no opening. */
  lemma OpeningFreeOf(s: string)
    requires forall i :: 0 <= i < |s| - 1 && s[i] == '@' ==> s[i + 1] != 'G' && s[i + 1] != 'P' && s[i + 1] != 'D'
    ensures OpeningFree(s)
  {
    forall i | 0 <= i < |s|
      ensures VerbAt(s, i).None?
    {
      if VerbAt(s, i).Some? {
        var v := VerbAt(s, i).value;
        OpeningHead(s, i, v);
        PieceChar(s, i, Opening(v), 0);
        assert false;
      }
    }
  }

  /** No position of a gap that starts no opening matches, as long as the gap is
      followed by an `@` or by the end of the text: an opening that began in the
      gap and ran on would hold that `@` after its first character. */
  lemma GapNoMatch(t: string, g: nat, gap: string, j: nat)
    requires PieceAt(t, g, gap) && OpeningFree(gap)
    requires g + |gap| == |t| || t[g + |gap|] == '@'
    requires g <= j < g + |gap|
    ensures MatchEndpoint(t, j).None?
  {
    if VerbAt(t, j).Some? {
      var v := VerbAt(t, j).value;
      var e := g + |gap|;
      if j + |Opening(v)| <= e {
        PieceInside(t, g, gap, j, Opening(v));
        VerbAtOf(gap, j - g, v);
      } else {
        PieceChar(t, j, Opening(v), e - j);
        OpeningTail(v, e - j);
      }
      assert false;
    }
  }

  /** The search passes over such a gap without reporting anything. */
  lemma {:induction false} GapSkipped(t: string, g: nat, gap: string, j: nat)
    requires PieceAt(t, g, gap) && OpeningFree(gap)
    requires g + |gap| == |t| || t[g + |gap|] == '@'
    requires g <= j <= g + |gap|
    ensures EndpointsFrom(t, j) == EndpointsFrom(t, g + |gap|)
    decreases g + |gap| - j
  {
    if j < g + |gap| {
      GapNoMatch(t, g, gap, j);
      EndpointsMissStep(t, j);
      GapSkipped(t, g, gap, j + 1);
    }
  }

  /** Annotations laid out one after another, the i-th followed by the gap
      `gaps[i]`: the code between two route annotations. */
  function Layout(eps: seq<Endpoint>, gaps: seq<string>): string
    requires |gaps| == |eps|
    decreases |eps|
  {
    if eps == [] then "" else Annotation(eps[0]) + gaps[0] + Layout(eps[1..], gaps[1..])
  }

  /** A non-empty layout starts with the `@` of its first annotation. */
  lemma LayoutHead(eps: seq<Endpoint>, gaps: seq<string>)
    requires |gaps| == |eps| && eps != []
    ensures |Layout(eps, gaps)| > 0 && Layout(eps, gaps)[0] == '@'
  {
    assert Layout(eps, gaps) == Annotation(eps[0]) + (gaps[0] + Layout(eps[1..], gaps[1..]));
  }

  /** An annotation at `k`, its gap, and then either the end of the text or more
      text starting with `@`: the annotation is reported and the gap yields
      nothing. */
  lemma LayoutStep(t: string, k: nat, e: Endpoint, gap: string, rest: string) returns (next: nat)
    requires WellFormed(e) && OpeningFree(gap)
    requires PieceAt(t, k, Annotation(e) + gap + rest) && k + |Annotation(e) + gap + rest| == |t|
    requires rest == [] || rest[0] == '@'
    ensures next == k + |Annotation(e)| + |gap| && PieceAt(t, next, rest)
    ensures EndpointsFrom(t, k) == [e] + EndpointsFrom(t, next)
  {
    var stop := k + |Annotation(e)|;
    next := stop + |gap|;
    PieceSplit(t, k, Annotation(e) + gap, rest);
    PieceSplit(t, k, Annotation(e), gap);
    MatchAnnotation(t, k, e);
    EndpointsMatchStep(t, k, e, stop);
    if rest != [] {
      PieceChar(t, next, rest, 0);
    }
    GapSkipped(t, stop, gap, stop);
  }

  /** A layout that runs to the end of the text: its annotations are reported in
      order, and nothing else is. */
  lemma {:induction false} LayoutEndpointsAt(t: string, k: nat, eps: seq<Endpoint>, gaps: seq<string>)
    requires |gaps| == |eps|
    requires forall e :: e in eps ==> WellFormed(e)
    requires forall i :: 0 <= i < |gaps| ==> OpeningFree(gaps[i])
    requires PieceAt(t, k, Layout(eps, gaps)) && k + |Layout(eps, gaps)| == |t|
    ensures EndpointsFrom(t, k) == eps
    decreases |eps|
  {
    if eps != [] {
      var rest := Layout(eps[1..], gaps[1..]);
      assert Layout(eps, gaps) == Annotation(eps[0]) + gaps[0] + rest;
      if eps[1..] != [] {
        LayoutHead(eps[1..], gaps[1..]);
      }
      assert eps[0] in eps && OpeningFree(gaps[0]);
      var next := LayoutStep(t, k, eps[0], gaps[0], rest);
      assert forall x :: x in eps[1..] ==> x in eps;
      assert forall i :: 0 <= i < |gaps[1..]| ==> gaps[1..][i] == gaps[i + 1];
      LayoutEndpointsAt(t, next, eps[1..], gaps[1..]);
      assert eps == [eps[0]] + eps[1..];
    } else {
      assert EndpointsFrom(t, k) == [];
    }
  }

  /** A controller file made of a header and then route annotations, each followed
      by the code up to the next one, yields exactly those annotations' endpoints,
      in source order, when neither the header nor that code starts an opening. */
  lemma ExtractLayout(header: string, eps: seq<Endpoint>, gaps: seq<string>)
    requires |gaps| == |eps|
    requires forall e :: e in eps ==> WellFormed(e)
    requires OpeningFree(header)
    requires forall i :: 0 <= i < |gaps| ==> OpeningFree(gaps[i])
    ensures EndpointsIn(header + Layout(eps, gaps)) == eps
  {
    var t := header + Layout(eps, gaps);
    PieceWhole(t);
    PieceSplit(t, 0, header, Layout(eps, gaps));
    if eps != [] {
      LayoutHead(eps, gaps);
      PieceChar(t, |header|, Layout(eps, gaps), 0);
    }
    GapSkipped(t, 0, header, 0);
    LayoutEndpointsAt(t, |header|, eps, gaps);
  }

  /** A search that finds nothing from `k0` passes every later position without a
      match. */
  lemma {:induction false} EmptyMeansNoMatch(t: string, k0: nat, k: nat)
    requires k0 <= k < |t| && EndpointsFrom(t, k0) == []
    ensures MatchEndpoint(t, k).None?
    decreases k - k0
  {
    if MatchEndpoint(t, k0).Some? {
      assert false;
    } else {
      EndpointsMissStep(t, k0);
      if k0 < k {
        EmptyMeansNoMatch(t, k0 + 1, k);
      }
    }
  }

  /** A search from `k` over positions that all fail to match finds nothing. */
  lemma {:induction false} NoMatchMeansEmpty(t: string, k: nat)
    requires k <= |t|
    requires forall j :: k <= j < |t| ==> MatchEndpoint(t, j).None?
    ensures EndpointsFrom(t, k) == []
    decreases |t| - k
  {
    if k < |t| {
      EndpointsMissStep(t, k);
      NoMatchMeansEmpty(t, k + 1);
    }
  }

  /** A match at `j` is a well-formed annotation occurring there. */
  lemma MatchFindsAnnotation(t: string, j: nat)
    requires j <= |t|
    ensures MatchEndpoint(t, j).Some? ==> exists e :: WellFormed(e) && PieceAt(t, j, Annotation(e))
  {
    if MatchEndpoint(t, j).Some? {
      var (e, n) := MatchEndpoint(t, j).value;
      MatchSound(t, j, e, n);
    }
  }

  /** The scan finds nothing exactly when no well-formed annotation occurs anywhere
      in the text; malformed usages never produce a partial match. */
  lemma ExtractEmptyIff(t: string)
    ensures EndpointsIn(t) == [] <==>
      forall k, e :: 0 <= k < |t| && WellFormed(e) ==> !PieceAt(t, k, Annotation(e))
  {
    if EndpointsIn(t) == [] {
      forall k, e | 0 <= k < |t| && WellFormed(e)
        ensures !PieceAt(t, k, Annotation(e))
      {
        EmptyMeansNoMatch(t, 0, k);
        if PieceAt(t, k, Annotation(e)) {
          MatchAnnotation(t, k, e);
        }
      }
    }
    if forall k, e :: 0 <= k < |t| && WellFormed(e) ==> !PieceAt(t, k, Annotation(e)) {
      forall j | 0 <= j < |t|
        ensures MatchEndpoint(t, j).None?
      {
        MatchFindsAnnotation(t, j);
      }
      NoMatchMeansEmpty(t, 0);
    }
  }

  // A controller as the scanner meets it.

  const UsersHeader := "@RestController\nclass Users {\n  "
  const UsersGap := "\n  List all() { }\n}\n"
  const UsersRoute := Endpoint("GetMapping", "/users")

  /** A controller class with one route; the class annotation is no route. */
  const UsersController := UsersHeader + "@GetMapping(\"/users\")" + UsersGap

  lemma UsersHeaderFree()
    ensures OpeningFree(UsersHeader)
  {
    OpeningFreeOf(UsersHeader);
  }

  lemma UsersGapFree()
    ensures OpeningFree(UsersGap)
  {
    OpeningFreeOf(UsersGap);
  }

  lemma UsersText()
    ensures UsersHeader + Layout([UsersRoute], [UsersGap]) == UsersController
  {
    assert [UsersRoute][1..] == [] && [UsersGap][1..] == [];
    assert Layout([UsersRoute], [UsersGap]) == Annotation(UsersRoute) + UsersGap + "";
    assert Annotation(UsersRoute) == "@GetMapping(\"/users\")";
  }

  /** The controller reports its one route and nothing for `@RestController`. */
  lemma UsersControllerEndpoints()
    ensures EndpointsIn(UsersController) == [UsersRoute]
  {
    UsersHeaderFree();
    UsersGapFree();
    assert WellFormed(UsersRoute);
    ExtractLayout(UsersHeader, [UsersRoute], [UsersGap]);
    UsersText();
  }
}
