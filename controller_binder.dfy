/** `detect_model_from_controller`: the request-body type of the handler bound to
    one exact annotation, found with the pattern
    `@<method>Mapping\("<path>"\)\s+public\s+\w+\s+\w+\s*\(\s*@RequestBody\s+(\w+)`
    (the path escaped), written out as a matcher for exactly that pattern. */
module ControllerBinder {
  import opened Wrappers
  import opened Text

  /** The literal head of the pattern: the annotation with the exact path. */
  function Anchor(httpMethod: string, path: string): string {
    "@" + httpMethod + "Mapping(\"" + path + "\")"
  }

  /** What the pattern reads after the annotation, piece by piece: blanks,
      `public`, blanks, the return type, blanks, the method name, optional blanks,
      `(`, optional blanks, `@RequestBody`, blanks and the body type. */
  datatype Handler = Handler(ws1: string, ws2: string, ret: string, ws3: string, name: string,
                             ws4: string, ws5: string, ws6: string, bodyType: string)

  predicate WellFormed(h: Handler) {
    IsSpaces(h.ws1) && IsSpaces(h.ws2) && IsWord(h.ret) && IsSpaces(h.ws3) && IsWord(h.name) &&
    IsBlank(h.ws4) && IsBlank(h.ws5) && IsSpaces(h.ws6) && IsWord(h.bodyType)
  }

  /** `\s+public` */
  function LeadText(h: Handler): string {
    h.ws1 + "public"
  }

  /** `\s+\w+\s+\w+\s*\(` */
  function SignatureText(h: Handler): string {
    h.ws2 + h.ret + h.ws3 + h.name + h.ws4 + "("
  }

  /** `\s*@RequestBody\s+(\w+)` */
  function ParamText(h: Handler): string {
    h.ws5 + "@RequestBody" + h.ws6 + h.bodyType
  }

  /** The source text of an annotated handler. */
  function HandlerText(anchor: string, h: Handler): string {
    anchor + LeadText(h) + SignatureText(h) + ParamText(h)
  }

  /** A handler bound to `anchor` occurs at position `k` of `t`: the anchor, then
      the texts of the three stages one after another, and the greedy body-type
      group cannot be extended past its end. */
  predicate HandlerAt(t: string, k: nat, anchor: string, h: Handler) {
    var j0 := k + |anchor|;
    var j1 := j0 + |LeadText(h)|;
    var j2 := j1 + |SignatureText(h)|;
    var e := j2 + |ParamText(h)|;
    WellFormed(h) && PieceAt(t, k, anchor) && PieceAt(t, j0, LeadText(h)) &&
    PieceAt(t, j1, SignatureText(h)) && PieceAt(t, j2, ParamText(h)) &&
    (e == |t| || !IsWordChar(t[e]))
  }

  // The pattern, stage by stage.

  /** `\s+public` from position `j`: the position just past `public`. */
  function Lead(t: string, j: nat): (r: Option<nat>)
    requires j <= |t|
    ensures r.Some? ==> j < r.value <= |t|
  {
    var a := SpaceEnd(t, j);
    if j < a && PieceAt(t, a, "public") then Some(a + 6) else None
  }

  /** `\s+\w+\s+\w+\s*\(` from position `j`: the position just past the `(`. */
  function Signature(t: string, j: nat): (r: Option<nat>)
    requires j <= |t|
    ensures r.Some? ==> j < r.value <= |t|
  {
    match SpacedWord(t, j)
    case None => None
    case Some((_, e1)) =>
      match SpacedWord(t, e1)
      case None => None
      case Some((_, e2)) =>
        var p := SpaceEnd(t, e2);
        if p < |t| && t[p] == '(' then Some(p + 1) else None
  }

  /** `\s*@RequestBody\s+(\w+)` from position `j`: where the group starts and ends. */
  function Param(t: string, j: nat): (r: Option<(nat, nat)>)
    requires j <= |t|
    ensures r.Some? ==> j < r.value.0 < r.value.1 <= |t|
  {
    var a := SpaceEnd(t, j);
    if PieceAt(t, a, "@RequestBody") then SpacedWord(t, a + 12) else None
  }

  /** The body type read by the last stage. */
  function ParamType(t: string, j: nat): Option<string>
    requires j <= |t|
  {
    match Param(t, j)
    case None => None
    case Some((s, e)) => Some(t[s..e])
  }

  function AfterLead(t: string, j: nat): Option<string>
    requires j <= |t|
  {
    match Signature(t, j)
    case None => None
    case Some(j2) => ParamType(t, j2)
  }

  function AfterAnchor(t: string, j: nat): Option<string>
    requires j <= |t|
  {
    match Lead(t, j)
    case None => None
    case Some(j1) => AfterLead(t, j1)
  }

  /** The whole pattern at position `k`: group 1 when it matches there. */
  function MatchHandler(t: string, anchor: string, k: nat): Option<string>
    requires k <= |t|
  {
    if PieceAt(t, k, anchor) then AfterAnchor(t, k + |anchor|) else None
  }

  /** The pattern tried at each position of `t`. */
  function Probe(t: string, anchor: string): nat -> Option<string> {
    (j: nat) => if j <= |t| then MatchHandler(t, anchor, j) else None
  }

  /** `detect_model_from_controller(content, httpMethod, path)`: `pattern.search`
      tries every position of the controller in turn. */
  function DetectModel(content: string, httpMethod: string, path: string): (r: Option<string>)
    ensures r.Some? ==> IsWord(r.value)
    ensures r.Some? ==> exists k: nat :: k <= |content| && PieceAt(content, k, Anchor(httpMethod, path))
  {
    var r := FirstMatch(Probe(content, Anchor(httpMethod, path)), 0, |content|);
    assert r.Some? ==> IsWord(r.value) && exists k: nat :: k <= |content| && PieceAt(content, k, Anchor(httpMethod, path)) by {
      if r.Some? {
        SearchFound(content, Anchor(httpMethod, path), r.value);
      }
    }
    r
  }

  /** What the search finds is a body type read after an occurrence of the
      annotation. */
  lemma SearchFound(content: string, anchor: string, ty: string)
    requires FirstMatch(Probe(content, anchor), 0, |content|) == Some(ty)
    ensures IsWord(ty) && exists k: nat :: k <= |content| && PieceAt(content, k, anchor)
  {
    var probe := Probe(content, anchor);
    var k := FirstMatchSound(probe, 0, |content|, ty);
    assert probe(k) == MatchHandler(content, anchor, k);
    var h := MatchHandlerSound(content, k, anchor);
  }

  // Completeness, stage by stage.

  lemma LeadOf(t: string, j: nat, h: Handler)
    requires IsSpaces(h.ws1) && PieceAt(t, j, LeadText(h))
    ensures Lead(t, j) == Some(j + |LeadText(h)|)
  {
    PieceSplit(t, j, h.ws1, "public");
    PieceChar(t, j + |h.ws1|, "public", 0);
    BlankEnd(t, j, h.ws1);
  }

  /** The signature's six pieces at known positions. */
  lemma SignaturePieces(t: string, j: nat, h: Handler, a: nat, b: nat, c: nat, d: nat, e: nat)
    requires PieceAt(t, j, SignatureText(h))
    requires a == j + |h.ws2| && b == a + |h.ret| && c == b + |h.ws3| && d == c + |h.name| && e == d + |h.ws4|
    ensures PieceAt(t, j, h.ws2) && PieceAt(t, a, h.ret) && PieceAt(t, b, h.ws3)
    ensures PieceAt(t, c, h.name) && PieceAt(t, d, h.ws4) && PieceAt(t, e, "(")
    ensures j + |SignatureText(h)| == e + 1
  {
    PieceSplit(t, j, h.ws2 + h.ret + h.ws3 + h.name + h.ws4, "(");
    PieceSplit(t, j, h.ws2 + h.ret + h.ws3 + h.name, h.ws4);
    PieceSplit(t, j, h.ws2 + h.ret + h.ws3, h.name);
    PieceSplit(t, j, h.ws2 + h.ret, h.ws3);
    PieceSplit(t, j, h.ws2, h.ret);
  }

  /** The signature stage over its pieces: the two blank-and-word stages, then
      optional blanks up to the `(`. */
  lemma SignatureAt(t: string, j: nat, h: Handler, a: nat, b: nat, c: nat, d: nat, e: nat)
    requires IsSpaces(h.ws2) && IsWord(h.ret) && IsSpaces(h.ws3) && IsWord(h.name) && IsBlank(h.ws4)
    requires a == j + |h.ws2| && b == a + |h.ret| && c == b + |h.ws3| && d == c + |h.name| && e == d + |h.ws4|
    requires PieceAt(t, j, h.ws2) && PieceAt(t, a, h.ret) && PieceAt(t, b, h.ws3)
    requires PieceAt(t, c, h.name) && PieceAt(t, d, h.ws4) && PieceAt(t, e, "(")
    ensures Signature(t, j) == Some(e + 1)
  {
    PieceChar(t, b, h.ws3, 0);
    PieceChar(t, e, "(", 0);
    SpacedWordBefore(t, j, h.ws2, h.ret, a, b);
    if h.ws4 != [] {
      PieceChar(t, d, h.ws4, 0);
    }
    SpacedWordOf(t, b, h.ws3, h.name);
    BlankEnd(t, d, h.ws4);
    SignatureOfStages(t, j, a, b, c, d, e);
  }

  lemma SignatureOfStages(t: string, j: nat, a: nat, b: nat, c: nat, d: nat, e: nat)
    requires j <= |t| && SpacedWord(t, j) == Some((a, b)) && SpacedWord(t, b) == Some((c, d))
    requires SpaceEnd(t, d) == e && e < |t| && t[e] == '('
    ensures Signature(t, j) == Some(e + 1)
  {
  }

  lemma SignatureOf(t: string, j: nat, h: Handler)
    requires IsSpaces(h.ws2) && IsWord(h.ret) && IsSpaces(h.ws3) && IsWord(h.name) && IsBlank(h.ws4)
    requires PieceAt(t, j, SignatureText(h))
    ensures Signature(t, j) == Some(j + |SignatureText(h)|)
  {
    var a := j + |h.ws2|;
    var b := a + |h.ret|;
    var c := b + |h.ws3|;
    var d := c + |h.name|;
    var e := d + |h.ws4|;
    SignaturePieces(t, j, h, a, b, c, d, e);
    SignatureAt(t, j, h, a, b, c, d, e);
  }

  /** The last stage over its pieces: optional blanks from `j`, `@RequestBody` from
      `a`, blanks from `b`, the body type from `s` up to `e`. */
  lemma ParamAt(t: string, j: nat, h: Handler, a: nat, b: nat, s: nat, e: nat)
    requires IsBlank(h.ws5) && IsSpaces(h.ws6) && IsWord(h.bodyType)
    requires a == j + |h.ws5| && b == a + 12 && s == b + |h.ws6| && e == s + |h.bodyType|
    requires PieceAt(t, j, h.ws5) && PieceAt(t, a, "@RequestBody") && PieceAt(t, b, h.ws6)
    requires PieceAt(t, s, h.bodyType)
    requires e == |t| || !IsWordChar(t[e])
    ensures Param(t, j) == Some((s, e)) && t[s..e] == h.bodyType
  {
    PieceChar(t, a, "@RequestBody", 0);
    BlankEnd(t, j, h.ws5);
    SpacedWordOf(t, b, h.ws6, h.bodyType);
  }

  lemma ParamOf(t: string, j: nat, h: Handler, e: nat)
    requires IsBlank(h.ws5) && IsSpaces(h.ws6) && IsWord(h.bodyType)
    requires PieceAt(t, j, ParamText(h)) && e == j + |ParamText(h)|
    requires e == |t| || !IsWordChar(t[e])
    ensures ParamType(t, j) == Some(h.bodyType)
  {
    var a := j + |h.ws5|;
    var b := a + 12;
    var s := b + |h.ws6|;
    PieceSplit(t, j, h.ws5 + "@RequestBody" + h.ws6, h.bodyType);
    PieceSplit(t, j, h.ws5 + "@RequestBody", h.ws6);
    PieceSplit(t, j, h.ws5, "@RequestBody");
    ParamAt(t, j, h, a, b, s, e);
  }

  /** A handler occurs at `k` exactly when its whole text does, with the greedy
      body-type group ending there. */
  lemma HandlerAtText(t: string, k: nat, anchor: string, h: Handler)
    ensures HandlerAt(t, k, anchor, h) <==>
      WellFormed(h) && PieceAt(t, k, HandlerText(anchor, h)) &&
      (k + |HandlerText(anchor, h)| == |t| || !IsWordChar(t[k + |HandlerText(anchor, h)|]))
  {
    var j0 := k + |anchor|;
    var j1 := j0 + |LeadText(h)|;
    var j2 := j1 + |SignatureText(h)|;
    if PieceAt(t, k, HandlerText(anchor, h)) {
      HandlerParts(t, k, anchor, h, j0, j1, j2);
    }
    if PieceAt(t, k, anchor) && PieceAt(t, j0, LeadText(h)) &&
       PieceAt(t, j1, SignatureText(h)) && PieceAt(t, j2, ParamText(h)) {
      HandlerJoin(t, k, anchor, h, j0, j1, j2);
    }
  }

  /** The four parts of a handler's text at known positions. */
  lemma HandlerParts(t: string, k: nat, anchor: string, h: Handler, j0: nat, j1: nat, j2: nat)
    requires PieceAt(t, k, HandlerText(anchor, h))
    requires j0 == k + |anchor| && j1 == j0 + |LeadText(h)| && j2 == j1 + |SignatureText(h)|
    ensures PieceAt(t, k, anchor) && PieceAt(t, j0, LeadText(h))
    ensures PieceAt(t, j1, SignatureText(h)) && PieceAt(t, j2, ParamText(h))
    ensures k + |HandlerText(anchor, h)| == j2 + |ParamText(h)|
  {
    PieceSplit(t, k, anchor + LeadText(h) + SignatureText(h), ParamText(h));
    PieceSplit(t, k, anchor + LeadText(h), SignatureText(h));
    PieceSplit(t, k, anchor, LeadText(h));
  }

  /** The four parts of a handler's text, side by side, make the whole. */
  lemma HandlerJoin(t: string, k: nat, anchor: string, h: Handler, j0: nat, j1: nat, j2: nat)
    requires PieceAt(t, k, anchor) && j0 == k + |anchor|
    requires PieceAt(t, j0, LeadText(h)) && j1 == j0 + |LeadText(h)|
    requires PieceAt(t, j1, SignatureText(h)) && j2 == j1 + |SignatureText(h)|
    requires PieceAt(t, j2, ParamText(h))
    ensures PieceAt(t, k, HandlerText(anchor, h))
    ensures k + |HandlerText(anchor, h)| == j2 + |ParamText(h)|
  {
    PieceJoin(t, k, anchor, LeadText(h));
    PieceJoin(t, k, anchor + LeadText(h), SignatureText(h));
    PieceJoin(t, k, anchor + LeadText(h) + SignatureText(h), ParamText(h));
  }

  /** The stages chained: the anchor, then each stage from where the previous one
      stopped. */
  lemma MatchHandlerOfStages(t: string, anchor: string, k: nat, j0: nat, j1: nat, j2: nat, ty: string)
    requires PieceAt(t, k, anchor) && j0 == k + |anchor|
    requires Lead(t, j0) == Some(j1) && Signature(t, j1) == Some(j2) && ParamType(t, j2) == Some(ty)
    ensures MatchHandler(t, anchor, k) == Some(ty)
  {
    assert AfterLead(t, j1) == Some(ty);
  }

  /** Completeness: wherever a handler bound to the anchor occurs, the pattern
      matches there and reads its body type. */
  lemma MatchHandlerOf(t: string, k: nat, anchor: string, h: Handler)
    requires HandlerAt(t, k, anchor, h)
    ensures MatchHandler(t, anchor, k) == Some(h.bodyType)
  {
    var j0 := k + |anchor|;
    var j1 := j0 + |LeadText(h)|;
    var j2 := j1 + |SignatureText(h)|;
    LeadOf(t, j0, h);
    SignatureOf(t, j1, h);
    ParamOf(t, j2, h, j2 + |ParamText(h)|);
    MatchHandlerOfStages(t, anchor, k, j0, j1, j2, h.bodyType);
  }

  // Soundness, stage by stage.

  lemma LeadSound(t: string, j: nat) returns (ws1: string)
    requires j <= |t| && Lead(t, j).Some?
    ensures IsSpaces(ws1) && PieceAt(t, j, ws1 + "public") && Lead(t, j).value == j + |ws1| + 6
  {
    var a := SpaceEnd(t, j);
    BlankRead(t, j);
    ws1 := t[j..a];
    PieceJoin(t, j, ws1, "public");
  }

  lemma SignatureSound(t: string, j: nat) returns (ws2: string, ret: string, ws3: string, name: string, ws4: string)
    requires j <= |t| && Signature(t, j).Some?
    ensures IsSpaces(ws2) && IsWord(ret) && IsSpaces(ws3) && IsWord(name) && IsBlank(ws4)
    ensures PieceAt(t, j, ws2 + ret + ws3 + name + ws4 + "(")
    ensures Signature(t, j).value == j + |ws2 + ret + ws3 + name + ws4 + "("|
  {
    var (s1, e1) := SpacedWord(t, j).value;
    var (s2, e2) := SpacedWord(t, e1).value;
    var p := SpaceEnd(t, e2);
    SignatureStages(t, j, s1, e1, s2, e2, p);
    SpacedWordSound(t, j);
    SpacedWordSound(t, e1);
    BlankRead(t, e2);
    ws2, ret, ws3, name, ws4 := t[j..s1], t[s1..e1], t[e1..s2], t[s2..e2], t[e2..p];
    SignatureSlices(t, j, s1, e1, s2, e2, p);
  }

  /** The signature stage, taken apart. */
  lemma SignatureStages(t: string, j: nat, s1: nat, e1: nat, s2: nat, e2: nat, p: nat)
    requires j <= |t| && Signature(t, j).Some?
    requires (s1, e1) == SpacedWord(t, j).value
    requires e1 <= |t| && (s2, e2) == SpacedWord(t, e1).value
    requires e2 <= |t| && p == SpaceEnd(t, e2)
    ensures SpacedWord(t, j) == Some((s1, e1)) && SpacedWord(t, e1) == Some((s2, e2))
    ensures p < |t| && t[p] == '(' && Signature(t, j) == Some(p + 1)
  {
  }

  /** Adjacent slices ending in `(`, joined back together. */
  lemma SignatureSlices(t: string, j: nat, a: nat, b: nat, c: nat, d: nat, e: nat)
    requires j <= a <= b <= c <= d <= e < |t| && t[e] == '('
    ensures PieceAt(t, j, t[j..a] + t[a..b] + t[b..c] + t[c..d] + t[d..e] + "(")
    ensures |t[j..a] + t[a..b] + t[b..c] + t[c..d] + t[d..e] + "("| == e + 1 - j
  {
    assert t[e..e + 1] == "(";
    SliceConcat(t, j, a, b);
    SliceConcat(t, j, b, c);
    SliceConcat(t, j, c, d);
    SliceConcat(t, j, d, e);
    SliceConcat(t, j, e, e + 1);
    assert t[j..a] + t[a..b] + t[b..c] + t[c..d] + t[d..e] + "(" == t[j..e + 1];
  }

  lemma ParamSound(t: string, j: nat) returns (ws5: string, ws6: string, ty: string)
    requires j <= |t| && ParamType(t, j).Some?
    ensures IsBlank(ws5) && IsSpaces(ws6) && IsWord(ty) && ParamType(t, j) == Some(ty)
    ensures PieceAt(t, j, ws5 + "@RequestBody" + ws6 + ty)
    ensures j + |ws5 + "@RequestBody" + ws6 + ty| == |t| ||
      !IsWordChar(t[j + |ws5 + "@RequestBody" + ws6 + ty|])
  {
    var a := SpaceEnd(t, j);
    var (s, e) := SpacedWord(t, a + 12).value;
    ParamStages(t, j, a, s, e);
    BlankRead(t, j);
    SpacedWordSound(t, a + 12);
    WordEndRun(t, s);
    ws5, ws6, ty := t[j..a], t[a + 12..s], t[s..e];
    PieceJoin(t, j, ws5, "@RequestBody");
    PieceJoin(t, j, ws5 + "@RequestBody", ws6);
    PieceJoin(t, j, ws5 + "@RequestBody" + ws6, ty);
  }

  /** The last stage, taken apart. */
  lemma ParamStages(t: string, j: nat, a: nat, s: nat, e: nat)
    requires j <= |t| && ParamType(t, j).Some? && a == SpaceEnd(t, j)
    requires PieceAt(t, a, "@RequestBody") ==> (s, e) == SpacedWord(t, a + 12).value
    ensures PieceAt(t, a, "@RequestBody") && SpacedWord(t, a + 12) == Some((s, e))
    ensures WordEnd(t, s) == e && ParamType(t, j) == Some(t[s..e])
  {
  }

  /** The chain of stages behind a match at `k`. */
  lemma MatchHandlerStages(t: string, anchor: string, k: nat) returns (j0: nat, j1: nat, j2: nat)
    requires k <= |t| && MatchHandler(t, anchor, k).Some?
    ensures PieceAt(t, k, anchor) && j0 == k + |anchor| && j0 <= j1 <= j2 <= |t|
    ensures Lead(t, j0) == Some(j1) && Signature(t, j1) == Some(j2)
    ensures ParamType(t, j2) == MatchHandler(t, anchor, k)
  {
    j0 := k + |anchor|;
    j1 := Lead(t, j0).value;
    j2 := Signature(t, j1).value;
  }

  /** Soundness: a match at `k` is a handler bound to the anchor occurring there,
      and what it returns is that handler's body type. */
  lemma MatchHandlerSound(t: string, k: nat, anchor: string) returns (h: Handler)
    requires k <= |t| && MatchHandler(t, anchor, k).Some?
    ensures HandlerAt(t, k, anchor, h) && MatchHandler(t, anchor, k) == Some(h.bodyType)
  {
    var j0, j1, j2 := MatchHandlerStages(t, anchor, k);
    h := HandlerRead(t, j0, j1, j2);
    HandlerAtOf(t, k, anchor, h, j0, j1, j2);
  }

  /** The pieces of a handler laid end to end after the anchor make a handler. */
  lemma HandlerAtOf(t: string, k: nat, anchor: string, h: Handler, j0: nat, j1: nat, j2: nat)
    requires PieceAt(t, k, anchor) && j0 == k + |anchor| && j0 <= j1 <= j2 <= |t|
    requires WellFormed(h)
    requires PieceAt(t, j0, LeadText(h)) && j1 == j0 + |LeadText(h)|
    requires PieceAt(t, j1, SignatureText(h)) && j2 == j1 + |SignatureText(h)|
    requires PieceAt(t, j2, ParamText(h))
    requires j2 + |ParamText(h)| == |t| || !IsWordChar(t[j2 + |ParamText(h)|])
    ensures HandlerAt(t, k, anchor, h)
  {
  }

  /** The handler the three stages read, from where the anchor ends. */
  lemma HandlerRead(t: string, j0: nat, j1: nat, j2: nat) returns (h: Handler)
    requires j0 <= j1 <= j2 <= |t|
    requires Lead(t, j0) == Some(j1) && Signature(t, j1) == Some(j2) && ParamType(t, j2).Some?
    ensures WellFormed(h) && ParamType(t, j2) == Some(h.bodyType)
    ensures PieceAt(t, j0, LeadText(h)) && j1 == j0 + |LeadText(h)|
    ensures PieceAt(t, j1, SignatureText(h)) && j2 == j1 + |SignatureText(h)|
    ensures PieceAt(t, j2, ParamText(h))
    ensures j2 + |ParamText(h)| == |t| || !IsWordChar(t[j2 + |ParamText(h)|])
  {
    var ws1 := LeadSound(t, j0);
    var ws2, ret, ws3, name, ws4 := SignatureSound(t, j1);
    var ws5, ws6, ty := ParamSound(t, j2);
    h := Handler(ws1, ws2, ret, ws3, name, ws4, ws5, ws6, ty);
    assert LeadText(h) == ws1 + "public";
    assert SignatureText(h) == ws2 + ret + ws3 + name + ws4 + "(";
    assert ParamText(h) == ws5 + "@RequestBody" + ws6 + ty;
  }

  /** A position where the pattern matches holds a handler bound to the anchor. */
  lemma MatchHasHandler(t: string, anchor: string, j: nat)
    requires j <= |t|
    ensures MatchHandler(t, anchor, j).Some? ==> exists g :: HandlerAt(t, j, anchor, g)
  {
    if MatchHandler(t, anchor, j).Some? {
      var g := MatchHandlerSound(t, j, anchor);
    }
  }

  // The search.

  /** `detect_model_from_controller` returns a type only when the exact annotation
      occurs with a handler of the pattern after it, and then it returns the body
      type of the first such occurrence. */
  lemma DetectSound(content: string, httpMethod: string, path: string, ty: string)
    returns (k: nat, h: Handler)
    requires DetectModel(content, httpMethod, path) == Some(ty)
    ensures HandlerAt(content, k, Anchor(httpMethod, path), h) && h.bodyType == ty
    ensures forall j: nat, g :: j < k ==> !HandlerAt(content, j, Anchor(httpMethod, path), g)
  {
    var anchor := Anchor(httpMethod, path);
    var probe := Probe(content, anchor);
    k := FirstMatchSound(probe, 0, |content|, ty);
    assert probe(k) == MatchHandler(content, anchor, k);
    h := MatchHandlerSound(content, k, anchor);
    forall j: nat, g | j < k
      ensures !HandlerAt(content, j, anchor, g)
    {
      assert probe(j) == MatchHandler(content, anchor, j);
      if HandlerAt(content, j, anchor, g) {
        MatchHandlerOf(content, j, anchor, g);
      }
    }
  }

  /** Conversely, the first occurrence of a handler bound to the exact annotation
      decides the result. */
  lemma DetectFirst(content: string, httpMethod: string, path: string, k: nat, h: Handler)
    requires HandlerAt(content, k, Anchor(httpMethod, path), h)
    requires forall j: nat, g :: j < k ==> !HandlerAt(content, j, Anchor(httpMethod, path), g)
    ensures DetectModel(content, httpMethod, path) == Some(h.bodyType)
  {
    var anchor := Anchor(httpMethod, path);
    var probe := Probe(content, anchor);
    MatchHandlerOf(content, k, anchor, h);
    assert probe(k) == Some(h.bodyType);
    forall j | 0 <= j < k
      ensures probe(j).None?
    {
      MatchHasHandler(content, anchor, j);
    }
    FirstMatchFinds(probe, 0, k, |content|);
  }

  /** No type is detected exactly when no handler is bound to the exact annotation
      anywhere in the controller. */
  lemma DetectNoneIff(content: string, httpMethod: string, path: string)
    ensures DetectModel(content, httpMethod, path).None? <==>
      forall k: nat, h :: k <= |content| ==> !HandlerAt(content, k, Anchor(httpMethod, path), h)
  {
    var anchor := Anchor(httpMethod, path);
    var probe := Probe(content, anchor);
    if DetectModel(content, httpMethod, path).Some? {
      var k, h := DetectSound(content, httpMethod, path, DetectModel(content, httpMethod, path).value);
    } else if forall k: nat, h :: k <= |content| ==> !HandlerAt(content, k, anchor, h) {
    } else {
      var k: nat, h :| k <= |content| && HandlerAt(content, k, anchor, h);
      FirstHandler(content, anchor, k, h);
    }
  }

  /** Below any occurrence lies a first one, and the search reports it. */
  lemma {:induction false} FirstHandler(t: string, anchor: string, k: nat, h: Handler)
    requires HandlerAt(t, k, anchor, h)
    ensures FirstMatch(Probe(t, anchor), 0, |t|).Some?
    decreases k
  {
    var probe := Probe(t, anchor);
    MatchHandlerOf(t, k, anchor, h);
    assert probe(k).Some?;
    if forall j :: 0 <= j < k ==> probe(j).None? {
      FirstMatchFinds(probe, 0, k, |t|);
    } else {
      var j :| 0 <= j < k && probe(j).Some?;
      var g := MatchHandlerSound(t, j, anchor);
      FirstHandler(t, anchor, j, g);
    }
  }
}
