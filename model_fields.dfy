/** The model-file side of the test generator: `extract_model_fields`, `dummy_value`
    and `build_payload`. The field pattern
    `(private|public|protected)\s+(\w+)\s+(\w+);` is written out as a matcher that
    works on positions of the model file's text. */
module ModelFields {
  import opened Wrappers
  import opened Text

  /** One field declaration: declared type and field name. */
  datatype FieldDecl = FieldDecl(fieldType: string, name: string)

  /** A JSON value of a dummy payload. `FloatV(1.0)` is the Python float `1.0`. */
  datatype Value = IntV(i: int) | FloatV(r: real) | StrV(s: string) | BoolV(b: bool)

  /** A request body: field name to value. */
  type Payload = map<string, Value>

  /** The three access qualifiers of the pattern, in alternation order. */
  const Qualifiers: seq<string> := ["private", "public", "protected"]

  /** The source text of one declaration. */
  function DeclText(q: string, ws1: string, d: FieldDecl, ws2: string): string {
    q + ws1 + d.fieldType + ws2 + d.name + ";"
  }

  /** The first of `qs` that occurs at position `k` of `t`. */
  function FirstAt(t: string, k: nat, qs: seq<string>): (r: Option<string>)
    ensures r.Some? ==> r.value in qs && PieceAt(t, k, r.value)
    decreases |qs|
  {
    if qs == [] then None
    else if PieceAt(t, k, qs[0]) then Some(qs[0])
    else FirstAt(t, k, qs[1..])
  }

  /** The qualifier that occurs at position `k` of `t`, tried in alternation order. */
  function QualifierAt(t: string, k: nat): Option<string> {
    FirstAt(t, k, Qualifiers)
  }

  /** The rest of the field pattern, `\s+(\w+)\s+(\w+);`, at position `j` of `t`:
      the declaration and the position just past the matched text. */
  function MatchAfter(t: string, j: nat): (r: Option<(FieldDecl, nat)>)
    requires j <= |t|
    ensures r.Some? ==> j < r.value.1 <= |t|
  {
    match SpacedWord(t, j)
    case None => None
    case Some((s1, e1)) =>
      match SpacedWord(t, e1)
      case None => None
      case Some((s2, e2)) =>
        if e2 < |t| && t[e2] == ';' then Some((FieldDecl(t[s1..e1], t[s2..e2]), e2 + 1))
        else None
  }

  /** The field pattern at position `k` of `t`: a qualifier, then the rest. */
  function MatchField(t: string, k: nat): (r: Option<(FieldDecl, nat)>)
    requires k <= |t|
    ensures r.Some? ==> k < r.value.1 <= |t|
  {
    match QualifierAt(t, k)
    case None => None
    case Some(q) => MatchAfter(t, k + |q|)
  }

  /** `re.finditer` over the field pattern, from position `k` on. */
  function FieldDecls(t: string, k: nat): seq<FieldDecl>
    requires k <= |t|
    decreases |t| - k, 1
  {
    if k == |t| then [] else FieldDeclsAt(t, k)
  }

  /** One step of the search: a match at `k` is taken and the search resumes after
      it, otherwise the search moves one character on. */
  function FieldDeclsAt(t: string, k: nat): seq<FieldDecl>
    requires k < |t|
    decreases |t| - k, 0
  {
    match MatchField(t, k)
    case Some((d, e)) => [d] + FieldDecls(t, e)
    case None => FieldDecls(t, k + 1)
  }

  /** The dictionary the loop fills: each declaration in turn assigns its name. */
  function FieldMap(ds: seq<FieldDecl>): map<string, string>
    decreases |ds|
  {
    if ds == [] then map[]
    else FieldMap(ds[..|ds| - 1])[ds[|ds| - 1].name := ds[|ds| - 1].fieldType]
  }

  /** The fields of a model file's text. */
  function ModelFieldsOf(content: string): map<string, string> {
    FieldMap(FieldDecls(content, 0))
  }

  /** `extract_model_fields`: `fields[name] = type` for every match, in order. */
  method ExtractModelFields(content: string) returns (fields: map<string, string>)
    ensures fields == ModelFieldsOf(content)
  {
    fields := map[];
    ghost var seen: seq<FieldDecl> := [];
    var i := 0;
    while i < |content|
      invariant 0 <= i <= |content|
      invariant seen + FieldDecls(content, i) == FieldDecls(content, 0)
      invariant fields == FieldMap(seen)
      decreases |content| - i
    {
      var m := MatchField(content, i);
      if m.Some? {
        var (d, e) := m.value;
        FieldDeclsAtMatch(content, i);
        assert seen + [d] + FieldDecls(content, e) == seen + FieldDecls(content, i);
        FieldMapSnoc(seen, d);
        fields := fields[d.name := d.fieldType];
        seen := seen + [d];
        i := e;
      } else {
        FieldDeclsAtMiss(content, i);
        i := i + 1;
      }
    }
    assert FieldDecls(content, i) == [];
    assert seen + [] == seen;
  }

  /** One step of `finditer` where a declaration starts at `k`. */
  lemma FieldDeclsAtMatch(t: string, k: nat)
    requires k < |t| && MatchField(t, k).Some?
    ensures FieldDecls(t, k) == [MatchField(t, k).value.0] + FieldDecls(t, MatchField(t, k).value.1)
  {
    assert FieldDecls(t, k) == FieldDeclsAt(t, k);
  }

  lemma FieldDeclsAtMatchOf(t: string, k: nat, d: FieldDecl, e: nat)
    requires k < |t| && MatchField(t, k) == Some((d, e))
    ensures FieldDecls(t, k) == [d] + FieldDecls(t, e)
  {
    FieldDeclsAtMatch(t, k);
  }

  /** One step of `finditer` where no declaration starts at `k`. */
  lemma FieldDeclsAtMiss(t: string, k: nat)
    requires k < |t| && MatchField(t, k).None?
    ensures FieldDecls(t, k) == FieldDecls(t, k + 1)
  {
    assert FieldDecls(t, k) == FieldDeclsAt(t, k);
  }

  lemma FieldMapSnoc(ds: seq<FieldDecl>, d: FieldDecl)
    ensures FieldMap(ds + [d]) == FieldMap(ds)[d.name := d.fieldType]
  {
    assert (ds + [d])[..|ds|] == ds;
  }

  /** The names of the dictionary are exactly the declared names. */
  lemma {:induction false} FieldMapKeys(ds: seq<FieldDecl>)
    ensures FieldMap(ds).Keys == set d | d in ds :: d.name
    decreases |ds|
  {
    if ds != [] {
      var init := ds[..|ds| - 1];
      FieldMapKeys(init);
      assert forall d :: d in ds <==> d in init || d == ds[|ds| - 1];
    }
  }

  /** For a repeated name, the last declaration's type wins. */
  lemma {:induction false} LastDeclarationWins(ds: seq<FieldDecl>, k: nat)
    requires k < |ds|
    requires forall j :: k < j < |ds| ==> ds[j].name != ds[k].name
    ensures ds[k].name in FieldMap(ds) && FieldMap(ds)[ds[k].name] == ds[k].fieldType
    decreases |ds|
  {
    if k < |ds| - 1 {
      var init := ds[..|ds| - 1];
      LastDeclarationWins(init, k);
    }
  }

  /** The first three letters of a piece. */
  lemma PieceHead(t: string, k: nat, p: string)
    ensures PieceAt(t, k, p) && 3 <= |p| ==> t[k] == p[0] && t[k + 1] == p[1] && t[k + 2] == p[2]
  {
    if PieceAt(t, k, p) && 3 <= |p| {
      PieceChar(t, k, p, 0);
      PieceChar(t, k, p, 1);
      PieceChar(t, k, p, 2);
    }
  }

  /** What the qualifier matcher returns occurs at `k` and is one of the three. */
  lemma QualifierAtSound(t: string, k: nat)
    requires QualifierAt(t, k).Some?
    ensures QualifierAt(t, k).value in Qualifiers && PieceAt(t, k, QualifierAt(t, k).value)
  {
  }

  /** Each qualifier is recognised where it occurs; the three are told apart by
      their second and third letters. */
  lemma QualifierAtOf(t: string, k: nat, q: string)
    requires q in Qualifiers && PieceAt(t, k, q)
    ensures QualifierAt(t, k) == Some(q)
  {
    PieceHead(t, k, q);
    PieceHead(t, k, "private");
    PieceHead(t, k, "public");
  }

  /** Every qualifier starts with `p`: a position holding another letter is no
      match. */
  lemma NoQualifierWithoutP(t: string, k: nat)
    requires k < |t| && t[k] != 'p'
    ensures QualifierAt(t, k).None?
  {
    PieceHead(t, k, "private");
    PieceHead(t, k, "public");
    PieceHead(t, k, "protected");
  }

  /** What `\s+(\w+)` reads is a run of blanks and then a word. */
  /** The pattern's stages over pieces laid side by side from position `k`: the
      qualifier, blanks from `a`, the type from `b`, blanks from `c`, the name from
      `d` and the semicolon at `e`. */
  lemma MatchPieces(t: string, k: nat, q: string, ws1: string, ty: string, ws2: string, nm: string,
                    a: nat, b: nat, c: nat, d: nat, e: nat)
    requires q in Qualifiers && IsSpaces(ws1) && IsWord(ty) && IsSpaces(ws2) && IsWord(nm)
    requires a == k + |q| && b == a + |ws1| && c == b + |ty| && d == c + |ws2| && e == d + |nm|
    requires PieceAt(t, k, q) && PieceAt(t, a, ws1) && PieceAt(t, b, ty)
    requires PieceAt(t, c, ws2) && PieceAt(t, d, nm) && PieceAt(t, e, ";")
    ensures e < |t| && t[e] == ';' && t[b..c] == ty && t[d..e] == nm
    ensures QualifierAt(t, k) == Some(q)
    ensures SpacedWord(t, a) == Some((b, c)) && SpacedWord(t, c) == Some((d, e))
  {
    QualifierAtOf(t, k, q);
    PieceChar(t, c, ws2, 0);
    SpacedWordBefore(t, a, ws1, ty, b, c);
    SpacedWordOf(t, c, ws2, nm);
    PieceChar(t, e, ";", 0);
  }

  /** The rest of the pattern succeeds when its two blank-and-word stages do and a
      semicolon follows: it reads the declaration whose type and name are the two
      words. */
  lemma MatchAfterOf(t: string, j: nat, s1: nat, e1: nat, s2: nat, e2: nat, d: FieldDecl, stop: nat)
    requires j <= |t| && SpacedWord(t, j) == Some((s1, e1))
    requires SpacedWord(t, e1) == Some((s2, e2))
    requires e2 < |t| && t[e2] == ';' && stop == e2 + 1
    requires t[s1..e1] == d.fieldType && t[s2..e2] == d.name
    ensures MatchAfter(t, j) == Some((d, stop))
  {
  }

  /** The pattern succeeds when a qualifier and then the rest do. */
  lemma MatchFieldOf(t: string, k: nat, q: string, j: nat, r: (FieldDecl, nat))
    requires k <= |t| && QualifierAt(t, k) == Some(q)
    requires j == k + |q| && j <= |t| && MatchAfter(t, j) == Some(r)
    ensures MatchField(t, k) == Some(r)
  {
  }

  /** A declaration's text splits into its six pieces, at the positions given. */
  lemma DeclPieces(t: string, k: nat, q: string, ws1: string, d: FieldDecl, ws2: string,
                   a: nat, b: nat, c: nat, n: nat, e: nat)
    requires PieceAt(t, k, DeclText(q, ws1, d, ws2))
    requires a == k + |q| && b == a + |ws1| && c == b + |d.fieldType| && n == c + |ws2| && e == n + |d.name|
    ensures PieceAt(t, k, q) && PieceAt(t, a, ws1) && PieceAt(t, b, d.fieldType)
    ensures PieceAt(t, c, ws2) && PieceAt(t, n, d.name) && PieceAt(t, e, ";")
    ensures k + |DeclText(q, ws1, d, ws2)| == e + 1
  {
    PieceSplit(t, k, q + ws1 + d.fieldType + ws2 + d.name, ";");
    PieceSplit(t, k, q + ws1 + d.fieldType + ws2, d.name);
    PieceSplit(t, k, q + ws1 + d.fieldType, ws2);
    PieceSplit(t, k, q + ws1, d.fieldType);
    PieceSplit(t, k, q, ws1);
  }

  /** Completeness: the matcher recognises every declaration of the pattern,
      whatever surrounds it. */
  lemma MatchDecl(t: string, k: nat, q: string, ws1: string, d: FieldDecl, ws2: string)
    requires q in Qualifiers && IsSpaces(ws1) && IsSpaces(ws2)
    requires IsWord(d.fieldType) && IsWord(d.name)
    requires PieceAt(t, k, DeclText(q, ws1, d, ws2))
    ensures MatchField(t, k) == Some((d, k + |DeclText(q, ws1, d, ws2)|))
  {
    var a := k + |q|;
    var b := a + |ws1|;
    var c := b + |d.fieldType|;
    var n := c + |ws2|;
    var e := n + |d.name|;
    MatchDeclAt(t, k, q, ws1, d, ws2, a, b, c, n, e);
  }

  /** The same, with the positions where the six pieces start. */
  lemma MatchDeclAt(t: string, k: nat, q: string, ws1: string, d: FieldDecl, ws2: string,
                    a: nat, b: nat, c: nat, n: nat, e: nat)
    requires q in Qualifiers && IsSpaces(ws1) && IsSpaces(ws2)
    requires IsWord(d.fieldType) && IsWord(d.name)
    requires PieceAt(t, k, DeclText(q, ws1, d, ws2))
    requires a == k + |q| && b == a + |ws1| && c == b + |d.fieldType| && n == c + |ws2| && e == n + |d.name|
    ensures MatchField(t, k) == Some((d, k + |DeclText(q, ws1, d, ws2)|))
  {
    var stop := e + 1;
    DeclPieces(t, k, q, ws1, d, ws2, a, b, c, n, e);
    MatchPieces(t, k, q, ws1, d.fieldType, ws2, d.name, a, b, c, n, e);
    MatchAfterOf(t, a, b, c, n, e, d, stop);
    MatchFieldOf(t, k, q, a, (d, stop));
  }

  /** Soundness: whatever the matcher returns is a declaration of the pattern that
      occurs at `k`, with word-character type and name. */
  lemma MatchSound(t: string, k: nat, d: FieldDecl, stop: nat)
    requires k <= |t| && MatchField(t, k) == Some((d, stop))
    ensures IsWord(d.fieldType) && IsWord(d.name)
    ensures exists q, ws1, ws2 ::
      q in Qualifiers && IsSpaces(ws1) && IsSpaces(ws2) &&
      PieceAt(t, k, DeclText(q, ws1, d, ws2)) && stop == k + |DeclText(q, ws1, d, ws2)|
  {
    var q := QualifierAt(t, k).value;
    var j := k + |q|;
    MatchFieldStages(t, k, q, j);
    var (s1, e1) := SpacedWord(t, j).value;
    var (s2, e2) := SpacedWord(t, e1).value;
    MatchAfterStages(t, j, s1, e1, s2, e2);
    var ws1, ws2 := t[j..s1], t[e1..s2];
    SoundPieces(t, k, q, j, s1, e1, s2, e2, d, stop);
    assert q in Qualifiers && IsSpaces(ws1) && IsSpaces(ws2) &&
      PieceAt(t, k, DeclText(q, ws1, d, ws2)) && stop == k + |DeclText(q, ws1, d, ws2)|;
  }

  /** A match starts with a qualifier, and the rest of the pattern follows it. */
  lemma MatchFieldStages(t: string, k: nat, q: string, j: nat)
    requires k <= |t| && MatchField(t, k).Some?
    requires q == QualifierAt(t, k).value && j == k + |q|
    ensures QualifierAt(t, k) == Some(q) && q in Qualifiers && PieceAt(t, k, q)
    ensures j <= |t| && MatchAfter(t, j) == MatchField(t, k)
  {
  }

  /** The rest of the pattern, taken apart: two blank-and-word stages and a
      semicolon. */
  lemma MatchAfterStages(t: string, j: nat, s1: nat, e1: nat, s2: nat, e2: nat)
    requires j <= |t| && MatchAfter(t, j).Some?
    requires (s1, e1) == SpacedWord(t, j).value
    requires e1 <= |t| && (s2, e2) == SpacedWord(t, e1).value
    ensures SpacedWord(t, j) == Some((s1, e1)) && SpacedWord(t, e1) == Some((s2, e2))
    ensures e2 < |t| && t[e2] == ';'
    ensures MatchAfter(t, j) == Some((FieldDecl(t[s1..e1], t[s2..e2]), e2 + 1))
  {
  }

  /** The text the stages read, put back together. */
  lemma SoundPieces(t: string, k: nat, q: string, j: nat, s1: nat, e1: nat, s2: nat, e2: nat,
                    d: FieldDecl, stop: nat)
    requires PieceAt(t, k, q) && j == k + |q| && j <= |t|
    requires SpacedWord(t, j) == Some((s1, e1)) && SpacedWord(t, e1) == Some((s2, e2))
    requires e2 < |t| && t[e2] == ';'
    requires d == FieldDecl(t[s1..e1], t[s2..e2]) && stop == e2 + 1
    ensures IsWord(d.fieldType) && IsWord(d.name) && IsSpaces(t[j..s1]) && IsSpaces(t[e1..s2])
    ensures PieceAt(t, k, DeclText(q, t[j..s1], d, t[e1..s2]))
    ensures stop == k + |DeclText(q, t[j..s1], d, t[e1..s2])|
  {
    SpacedWordSound(t, j);
    SpacedWordSound(t, e1);
    DeclSlices(t, k, j, s1, e1, s2, e2);
    assert t[k..j] == q;
    assert DeclText(q, t[j..s1], d, t[e1..s2]) == t[k..e2 + 1];
  }

  /** Adjacent slices of a text joined back together. */
  lemma DeclSlices(t: string, k: nat, a: nat, b: nat, c: nat, d: nat, e: nat)
    requires k <= a <= b <= c <= d <= e < |t| && t[e] == ';'
    ensures t[k..a] + t[a..b] + t[b..c] + t[c..d] + t[d..e] + ";" == t[k..e + 1]
  {
    assert t[e..e + 1] == ";";
    SliceConcat(t, k, a, b);
    SliceConcat(t, k, b, c);
    SliceConcat(t, k, c, d);
    SliceConcat(t, k, d, e);
    SliceConcat(t, k, e, e + 1);
  }

  /** Text without a `p` cannot start a declaration and does not disturb what
      follows it. */
  lemma {:induction false} FieldsSkipFiller(t: string, k: nat, filler: string)
    requires PieceAt(t, k, filler) && 'p' !in filler
    ensures FieldDecls(t, k) == FieldDecls(t, k + |filler|)
    decreases |filler|
  {
    if filler != [] {
      PieceChar(t, k, filler, 0);
      NoQualifierWithoutP(t, k);
      PieceSplit(t, k, [filler[0]], filler[1..]);
      assert [filler[0]] + filler[1..] == filler;
      FieldsSkipFiller(t, k + 1, filler[1..]);
    }
  }

  /** No declaration matches anywhere in `s` taken on its own. */
  predicate FieldFree(s: string) {
    forall i :: 0 <= i <= |s| ==> MatchField(s, i).None?
  }

  /** Every match ends with a semicolon: text without one declares no field. */
  lemma FieldFreeWithoutSemicolon(s: string)
    requires ';' !in s
    ensures FieldFree(s)
  {
    forall i | 0 <= i <= |s|
      ensures MatchField(s, i).None?
    {
      if MatchField(s, i).Some? {
        var (d, stop) := MatchField(s, i).value;
        SemicolonAtEnd(s, i, d, stop);
        assert false;
      }
    }
  }

  /** The last character of a match is its semicolon. */
  lemma SemicolonAtEnd(t: string, k: nat, d: FieldDecl, stop: nat)
    requires k <= |t| && MatchField(t, k) == Some((d, stop))
    ensures k < stop <= |t| && t[stop - 1] == ';'
  {
    var q := QualifierAt(t, k).value;
    var j := k + |q|;
    MatchFieldStages(t, k, q, j);
    var (s1, e1) := SpacedWord(t, j).value;
    var (s2, e2) := SpacedWord(t, e1).value;
    MatchAfterStages(t, j, s1, e1, s2, e2);
  }

  /** One declaration as written in a model file: qualifier, blanks, type, blanks,
      name and semicolon, then the text up to the next declaration. */
  datatype DeclLine = DeclLine(q: string, ws1: string, decl: FieldDecl, ws2: string, gap: string)

  /** The declaration part of a line fits the pattern. */
  predicate DeclOk(l: DeclLine) {
    l.q in Qualifiers && IsSpaces(l.ws1) && IsSpaces(l.ws2) &&
    IsWord(l.decl.fieldType) && IsWord(l.decl.name)
  }

  function LineDecl(l: DeclLine): string {
    DeclText(l.q, l.ws1, l.decl, l.ws2)
  }

  /** The characters of a declaration at `k`, stage by stage: the qualifier up to
      `a`, blanks up to `b`, the type up to `c`, blanks up to `n`, the name up to
      `e` and the semicolon at `e`. */
  lemma DeclChars(t: string, k: nat, l: DeclLine) returns (a: nat, b: nat, c: nat, n: nat, e: nat)
    requires DeclOk(l) && PieceAt(t, k, LineDecl(l))
    ensures k < a < b < c < n < e < |t| && e + 1 == k + |LineDecl(l)|
    ensures t[k] == 'p' && t[e] == ';'
    ensures IsSpace(t[a]) && IsWordChar(t[b]) && IsSpace(t[c]) && IsWordChar(t[n])
    ensures forall i :: k <= i < a ==> IsWordChar(t[i])
    ensures forall i :: k < i < a ==> t[i] != 'p'
    ensures forall i :: a <= i < b ==> IsSpace(t[i])
    ensures forall i :: b <= i < c ==> IsWordChar(t[i])
    ensures forall i :: c <= i < n ==> IsSpace(t[i])
    ensures forall i :: n <= i < e ==> IsWordChar(t[i])
  {
    a := k + |l.q|;
    b := a + |l.ws1|;
    c := b + |l.decl.fieldType|;
    n := c + |l.ws2|;
    e := n + |l.decl.name|;
    DeclPieces(t, k, l.q, l.ws1, l.decl, l.ws2, a, b, c, n, e);
    PieceChar(t, e, ";", 0);
    forall i | k <= i < a
      ensures IsWordChar(t[i]) && (i > k ==> t[i] != 'p') && (i == k ==> t[i] == 'p')
    {
      PieceChar(t, k, l.q, i - k);
      QualifierChar(l.q, i - k);
    }
    forall i | a <= i < b ensures IsSpace(t[i]) { PieceChar(t, a, l.ws1, i - a); }
    forall i | b <= i < c ensures IsWordChar(t[i]) { PieceChar(t, b, l.decl.fieldType, i - b); }
    forall i | c <= i < n ensures IsSpace(t[i]) { PieceChar(t, c, l.ws2, i - c); }
    forall i | n <= i < e ensures IsWordChar(t[i]) { PieceChar(t, n, l.decl.name, i - n); }
  }

  /** A qualifier is a word whose only `p` is its first letter. */
  lemma QualifierChar(q: string, i: nat)
    requires q in Qualifiers && i < |q|
    ensures IsWordChar(q[i]) && (i == 0 <==> q[i] == 'p')
  {
  }

  /** A match that covers the first character of a declaration starts there: it
      cannot begin earlier and run into it, because the declaration's `p` can only
      be a qualifier's first letter and its blank-word-blank-word shape has one
      word too many for the rest of a match. */
  lemma MatchCoversDecl(t: string, j: nat, m: DeclLine, k: nat, l: DeclLine)
    requires DeclOk(m) && DeclOk(l)
    requires PieceAt(t, j, LineDecl(m)) && PieceAt(t, k, LineDecl(l))
    requires j <= k < j + |LineDecl(m)|
    ensures j == k
  {
    var a1, b1, c1, n1, e1 := DeclChars(t, j, m);
    var a, b, c, n, e := DeclChars(t, k, l);
    if j < k {
      assert false;
    }
  }

  /** No position of a gap that declares nothing on its own matches, as long as the
      gap is followed by a declaration or by the end of the text. */
  lemma GapNoField(t: string, g: nat, gap: string, j: nat, next: DeclLine)
    requires PieceAt(t, g, gap) && FieldFree(gap)
    requires g + |gap| == |t| || (DeclOk(next) && PieceAt(t, g + |gap|, LineDecl(next)))
    requires g <= j < g + |gap|
    ensures MatchField(t, j).None?
  {
    if MatchField(t, j).Some? {
      var (d, stop) := MatchField(t, j).value;
      MatchSound(t, j, d, stop);
      var q, ws1, ws2 :| q in Qualifiers && IsSpaces(ws1) && IsSpaces(ws2) &&
        PieceAt(t, j, DeclText(q, ws1, d, ws2)) && stop == j + |DeclText(q, ws1, d, ws2)|;
      var m := DeclLine(q, ws1, d, ws2, "");
      if stop <= g + |gap| {
        PieceInside(t, g, gap, j, DeclText(q, ws1, d, ws2));
        MatchDecl(gap, j - g, q, ws1, d, ws2);
      } else {
        MatchCoversDecl(t, j, m, g + |gap|, next);
      }
      assert false;
    }
  }

  /** The search passes over such a gap without finding anything. */
  lemma {:induction false} FieldGapSkipped(t: string, g: nat, gap: string, j: nat, next: DeclLine)
    requires PieceAt(t, g, gap) && FieldFree(gap)
    requires g + |gap| == |t| || (DeclOk(next) && PieceAt(t, g + |gap|, LineDecl(next)))
    requires g <= j <= g + |gap|
    ensures FieldDecls(t, j) == FieldDecls(t, g + |gap|)
    decreases g + |gap| - j
  {
    if j < g + |gap| {
      GapNoField(t, g, gap, j, next);
      FieldDeclsAtMiss(t, j);
      FieldGapSkipped(t, g, gap, j + 1, next);
    }
  }

  /** The body of a model file: its declarations, each followed by its gap. */
  function ModelText(lines: seq<DeclLine>): string
    decreases |lines|
  {
    if lines == [] then "" else LineDecl(lines[0]) + lines[0].gap + ModelText(lines[1..])
  }

  /** The declarations of the lines, in order. */
  function Decls(lines: seq<DeclLine>): (ds: seq<FieldDecl>)
    ensures |ds| == |lines| && forall i :: 0 <= i < |lines| ==> ds[i] == lines[i].decl
    decreases |lines|
  {
    if lines == [] then [] else [lines[0].decl] + Decls(lines[1..])
  }

  /** Every line fits the pattern and no gap declares anything on its own. */
  predicate LinesOk(lines: seq<DeclLine>)
    decreases |lines|
  {
    lines == [] || (DeclOk(lines[0]) && FieldFree(lines[0].gap) && LinesOk(lines[1..]))
  }

  /** Where such a body starts, either the text ends or a declaration begins. */
  lemma ModelTextStart(t: string, g: nat, lines: seq<DeclLine>) returns (next: DeclLine)
    requires LinesOk(lines)
    requires PieceAt(t, g, ModelText(lines)) && g + |ModelText(lines)| == |t|
    ensures g == |t| || (DeclOk(next) && PieceAt(t, g, LineDecl(next)))
  {
    if lines == [] {
      next := DeclLine("", "", FieldDecl("", ""), "", "");
    } else {
      next := lines[0];
      assert DeclOk(next);
      assert ModelText(lines) == LineDecl(next) + (next.gap + ModelText(lines[1..]));
      PieceSplit(t, g, LineDecl(next), next.gap + ModelText(lines[1..]));
    }
  }

  /** A line at `k`: its declaration is found there and the search resumes right
      after its semicolon, where its gap begins. */
  lemma LineFound(t: string, k: nat, l: DeclLine, rest: string)
    requires DeclOk(l) && PieceAt(t, k, LineDecl(l) + l.gap + rest)
    ensures PieceAt(t, k + |LineDecl(l)|, l.gap)
    ensures PieceAt(t, k + |LineDecl(l)| + |l.gap|, rest)
    ensures FieldDecls(t, k) == [l.decl] + FieldDecls(t, k + |LineDecl(l)|)
  {
    PieceSplit(t, k, LineDecl(l) + l.gap, rest);
    PieceSplit(t, k, LineDecl(l), l.gap);
    MatchDecl(t, k, l.q, l.ws1, l.decl, l.ws2);
    FieldDeclsAtMatchOf(t, k, l.decl, k + |LineDecl(l)|);
  }

  /** A line followed by more text that starts with a declaration or runs to the
      end: the line's declaration is found and its gap yields nothing. */
  lemma LineAndGap(t: string, k: nat, l: DeclLine, rest: string, after: DeclLine) returns (next: nat)
    requires DeclOk(l) && FieldFree(l.gap) && PieceAt(t, k, LineDecl(l) + l.gap + rest)
    requires k + |LineDecl(l)| + |l.gap| + |rest| == |t|
    requires var g := k + |LineDecl(l)| + |l.gap|; g == |t| || (DeclOk(after) && PieceAt(t, g, LineDecl(after)))
    ensures next == k + |LineDecl(l)| + |l.gap| && PieceAt(t, next, rest)
    ensures FieldDecls(t, k) == [l.decl] + FieldDecls(t, next)
  {
    var stop := k + |LineDecl(l)|;
    next := stop + |l.gap|;
    LineFound(t, k, l, rest);
    FieldGapSkipped(t, stop, l.gap, stop, after);
    assert FieldDecls(t, stop) == FieldDecls(t, next);
  }

  /** The first line of such a body: its declaration is found, its gap is passed
      over, and the rest of the body follows. */
  lemma ModelTextStep(t: string, k: nat, lines: seq<DeclLine>) returns (next: nat)
    requires LinesOk(lines) && lines != []
    requires PieceAt(t, k, ModelText(lines)) && k + |ModelText(lines)| == |t|
    ensures LinesOk(lines[1..])
    ensures PieceAt(t, next, ModelText(lines[1..])) && next + |ModelText(lines[1..])| == |t|
    ensures FieldDecls(t, k) == [lines[0].decl] + FieldDecls(t, next)
  {
    var l := lines[0];
    var rest := ModelText(lines[1..]);
    assert ModelText(lines) == LineDecl(l) + l.gap + rest;
    var at := k + |LineDecl(l)| + |l.gap|;
    PieceSplit(t, k, LineDecl(l) + l.gap, rest);
    var after := ModelTextStart(t, at, lines[1..]);
    next := LineAndGap(t, k, l, rest, after);
  }

  /** A body that runs to the end of the text: its declarations are found in
      order, and nothing else is. */
  lemma {:induction false} ModelTextFieldsAt(t: string, k: nat, lines: seq<DeclLine>)
    requires LinesOk(lines)
    requires PieceAt(t, k, ModelText(lines)) && k + |ModelText(lines)| == |t|
    ensures FieldDecls(t, k) == Decls(lines)
    decreases |lines|
  {
    if lines != [] {
      var next := ModelTextStep(t, k, lines);
      ModelTextFieldsAt(t, next, lines[1..]);
      assert Decls(lines) == [lines[0].decl] + Decls(lines[1..]);
    } else {
      assert FieldDecls(t, k) == [];
    }
  }

  /** A model file made of a header, then declarations each followed by the text
      up to the next one, declares exactly those fields, in order, when neither
      the header nor any gap declares anything on its own. */
  lemma ModelTextFields(header: string, lines: seq<DeclLine>)
    requires FieldFree(header) && LinesOk(lines)
    ensures FieldDecls(header + ModelText(lines), 0) == Decls(lines)
  {
    var t := header + ModelText(lines);
    PieceWhole(t);
    PieceSplit(t, 0, header, ModelText(lines));
    var first := ModelTextStart(t, |header|, lines);
    FieldGapSkipped(t, 0, header, 0, first);
    ModelTextFieldsAt(t, |header|, lines);
  }

  /** In such a model file the fields are the declared names, and a field declared
      several times takes the type of its last declaration. */
  lemma ModelTextLastWins(header: string, lines: seq<DeclLine>, k: nat)
    requires FieldFree(header) && LinesOk(lines)
    requires k < |lines|
    requires forall j :: k < j < |lines| ==> lines[j].decl.name != lines[k].decl.name
    ensures ModelFieldsOf(header + ModelText(lines)).Keys == set l | l in lines :: l.decl.name
    ensures ModelFieldsOf(header + ModelText(lines))[lines[k].decl.name] == lines[k].decl.fieldType
  {
    ModelTextFields(header, lines);
    DeclsLastWins(lines, k);
  }

  /** The dictionary built from the lines' declarations: its names are the lines'
      names, and a repeated name keeps its last type. */
  lemma DeclsLastWins(lines: seq<DeclLine>, k: nat)
    requires k < |lines|
    requires forall j :: k < j < |lines| ==> lines[j].decl.name != lines[k].decl.name
    ensures FieldMap(Decls(lines)).Keys == set l | l in lines :: l.decl.name
    ensures FieldMap(Decls(lines))[lines[k].decl.name] == lines[k].decl.fieldType
  {
    var ds := Decls(lines);
    FieldMapKeys(ds);
    var names := set l | l in lines :: l.decl.name;
    assert (set d | d in ds :: d.name) == names by {
      forall x | x in names
        ensures x in set d | d in ds :: d.name
      {
        var i :| 0 <= i < |lines| && lines[i].decl.name == x;
        assert ds[i] in ds;
      }
    }
    LastDeclarationWins(ds, k);
  }

  /** `dummy_value`: the fixed type-to-value table, `"dummy"` for any other type. */
  function DummyValue(javaType: string): (v: Value)
    ensures IsTableValue(v)
    ensures !(javaType in ["int", "long", "double", "float", "String", "boolean"]) ==> v == StrV("dummy")
  {
    if javaType == "int" || javaType == "long" then IntV(1)
    else if javaType == "double" || javaType == "float" then FloatV(1.0)
    else if javaType == "String" then StrV("test")
    else if javaType == "boolean" then BoolV(true)
    else StrV("dummy")
  }

  /** The five values the table can produce. */
  predicate IsTableValue(v: Value) {
    v == IntV(1) || v == FloatV(1.0) || v == StrV("test") || v == BoolV(true) || v == StrV("dummy")
  }

  /** `build_payload` over the model file's text: one key per extracted field, each
      with its type's table value. */
  function BuildPayload(content: string): (r: Payload)
    ensures r.Keys == ModelFieldsOf(content).Keys
    ensures forall f :: f in r ==> r[f] == DummyValue(ModelFieldsOf(content)[f])
    ensures forall f :: f in r ==> IsTableValue(r[f])
  {
    var fields := ModelFieldsOf(content);
    map f | f in fields :: DummyValue(fields[f])
  }

  /** Each table row in both directions: a value comes from exactly the types the
      table lists for it. */
  lemma DummyValueTable(javaType: string)
    ensures DummyValue(javaType) == IntV(1) <==> javaType == "int" || javaType == "long"
    ensures DummyValue(javaType) == FloatV(1.0) <==> javaType == "double" || javaType == "float"
    ensures DummyValue(javaType) == StrV("test") <==> javaType == "String"
    ensures DummyValue(javaType) == BoolV(true) <==> javaType == "boolean"
    ensures DummyValue(javaType) == StrV("dummy") <==>
      !(javaType in ["int", "long", "double", "float", "String", "boolean"])
  {
  }

  /** The payload of a model with two distinct fields. */
  lemma PayloadOfFields(content: string, f0: string, t0: string, f1: string, t1: string)
    requires f0 != f1
    requires ModelFieldsOf(content) == map[f0 := t0, f1 := t1]
    ensures BuildPayload(content) == map[f0 := DummyValue(t0), f1 := DummyValue(t1)]
  {
  }

  /** A small entity class: an annotation and the class header, two private
      fields, and the closing brace. */
  const UserHeader := "@Entity\npublic class User {\n    "
  const UserGap := "\n    "
  const UserEnd := "\n}\n"
  const UserLines := [
    DeclLine("private", " ", FieldDecl("String", "name"), " ", UserGap),
    DeclLine("private", " ", FieldDecl("int", "age"), " ", UserEnd)]
  const UserModel := UserHeader + "private String name;" + UserGap + "private int age;" + UserEnd

  /** The class is its header followed by its two declaration lines. */
  lemma UserModelText()
    ensures UserHeader + ModelText(UserLines) == UserModel
  {
    var l0, l1 := UserLines[0], UserLines[1];
    assert UserLines[1..] == [l1] && [l1][1..] == [];
    assert LineDecl(l0) == "private String name;";
    assert LineDecl(l1) == "private int age;";
    assert ModelText([l1]) == "private int age;" + UserEnd + "";
    assert ModelText(UserLines) == "private String name;" + UserGap + ModelText([l1]);
  }

  /** Neither the header nor the gaps hold a semicolon, and both lines fit the
      pattern. */
  lemma UserLinesOk()
    ensures FieldFree(UserHeader) && LinesOk(UserLines)
  {
    FieldFreeWithoutSemicolon(UserHeader);
    FieldFreeWithoutSemicolon(UserGap);
    FieldFreeWithoutSemicolon(UserEnd);
    assert IsWord("String") && IsWord("name") && IsWord("int") && IsWord("age");
    assert IsSpaces(" ");
  }

  /** Its fields are `name: String` and `age: int`. */
  lemma UserModelFields()
    ensures ModelFieldsOf(UserModel) == map["name" := "String", "age" := "int"]
  {
    UserLinesOk();
    ModelTextFields(UserHeader, UserLines);
    UserModelText();
    UserFieldMap();
  }

  /** The dictionary of its two declarations. */
  lemma UserFieldMap()
    ensures FieldMap(Decls(UserLines)) == map["name" := "String", "age" := "int"]
  {
    var d0, d1 := FieldDecl("String", "name"), FieldDecl("int", "age");
    assert Decls(UserLines) == [d0] + [d1];
    FieldMapSnoc([], d0);
    assert [] + [d0] == [d0];
    FieldMapSnoc([d0], d1);
  }

  /** The class gives the payload `{"name": "test", "age": 1}`. */
  lemma UserModelPayload()
    ensures BuildPayload(UserModel) == map["name" := StrV("test"), "age" := IntV(1)]
  {
    UserModelFields();
    PayloadOfFields(UserModel, "name", "String", "age", "int");
    assert DummyValue("String") == StrV("test") by { assert "String" != "int" && "String" != "long"; }
    assert DummyValue("int") == IntV(1);
  }
}
