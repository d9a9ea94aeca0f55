/** ASCII models of the Python string operations and regular-expression character
    classes that the two stages use: `startswith`, `endswith`, `in`, `lower`,
    `replace`, `strip`, `"\n".join`, and the classes `\s` and `\w`. */
module Text {
  import opened Wrappers

  /** `s.startswith(p)` */
  predicate StartsWith(s: string, p: string) {
    p <= s
  }

  /** `s.endswith(p)` */
  predicate EndsWith(s: string, p: string) {
    |p| <= |s| && s[|s| - |p|..] == p
  }

  /** `p in s`: `p` starts at some position of `s`. */
  predicate Contains(s: string, p: string)
    decreases |s|
  {
    StartsWith(s, p) || (s != [] && Contains(s[1..], p))
  }

  /** The ASCII members of Python's `\s`: tab to carriage return, the four
      separator controls 0x1C-0x1F, and the space. */
  predicate IsSpace(c: char) {
    c == ' ' || 9 <= c as int <= 13 || 28 <= c as int <= 31
  }

  /** The ASCII members of Python's `\w`. */
  predicate IsWordChar(c: char) {
    'a' <= c <= 'z' || 'A' <= c <= 'Z' || '0' <= c <= '9' || c == '_'
  }

  /** `s[k..k + |p|] == p`: the text `p` occurs in `s` at position `k`. */
  predicate PieceAt(s: string, k: nat, p: string) {
    k + |p| <= |s| && s[k..k + |p|] == p
  }

  /** Where a greedy `\s*` that starts at position `k` of `s` stops. */
  function SpaceEnd(s: string, k: nat): (j: nat)
    requires k <= |s|
    ensures k <= j <= |s|
    decreases |s| - k
  {
    if k < |s| && IsSpace(s[k]) then SpaceEnd(s, k + 1) else k
  }

  /** Where a greedy `\w*` that starts at position `k` of `s` stops. */
  function WordEnd(s: string, k: nat): (j: nat)
    requires k <= |s|
    ensures k <= j <= |s|
    decreases |s| - k
  {
    if k < |s| && IsWordChar(s[k]) then WordEnd(s, k + 1) else k
  }

  /** `\s*` takes only blanks, and stops at the end or at a character that is not
      one. */
  lemma {:induction false} SpaceEndRun(s: string, k: nat)
    requires k <= |s|
    ensures forall i :: k <= i < SpaceEnd(s, k) ==> IsSpace(s[i])
    ensures SpaceEnd(s, k) < |s| ==> !IsSpace(s[SpaceEnd(s, k)])
    decreases |s| - k
  {
    if k < |s| && IsSpace(s[k]) {
      SpaceEndRun(s, k + 1);
    }
  }

  /** `\w*` takes only word characters, and stops at the end or at a character that
      is not one. */
  lemma {:induction false} WordEndRun(s: string, k: nat)
    requires k <= |s|
    ensures forall i :: k <= i < WordEnd(s, k) ==> IsWordChar(s[i])
    ensures WordEnd(s, k) < |s| ==> !IsWordChar(s[WordEnd(s, k)])
    decreases |s| - k
  {
    if k < |s| && IsWordChar(s[k]) {
      WordEndRun(s, k + 1);
    }
  }

  /** A greedy `\s*` over a run of blanks stops exactly where the run ends. */
  lemma SpaceEndOfRun(s: string, k: nat, j: nat)
    requires k <= j <= |s|
    requires forall i :: k <= i < j ==> IsSpace(s[i])
    requires j == |s| || !IsSpace(s[j])
    ensures SpaceEnd(s, k) == j
  {
    SpaceEndRun(s, k);
  }

  /** A greedy `\w*` over a word stops exactly where the word ends. */
  lemma WordEndOfWord(s: string, k: nat, j: nat)
    requires k <= j <= |s|
    requires forall i :: k <= i < j ==> IsWordChar(s[i])
    requires j == |s| || !IsWordChar(s[j])
    ensures WordEnd(s, k) == j
  {
    WordEndRun(s, k);
  }

  // The character classes over whole pieces.

  /** `\w+` matches all of `s`. */
  predicate IsWord(s: string) {
    s != [] && forall i :: 0 <= i < |s| ==> IsWordChar(s[i])
  }

  /** `\s+` matches all of `s`. */
  predicate IsSpaces(s: string) {
    s != [] && forall i :: 0 <= i < |s| ==> IsSpace(s[i])
  }

  /** `\s*` matches all of `s`. */
  predicate IsBlank(s: string) {
    forall i :: 0 <= i < |s| ==> IsSpace(s[i])
  }

  /** `\s+(\w+)` at position `k` of `t`: where the word starts and where it ends. */
  function SpacedWord(t: string, k: nat): (r: Option<(nat, nat)>)
    requires k <= |t|
    ensures r.Some? ==> k < r.value.0 < r.value.1 <= |t|
  {
    var s := SpaceEnd(t, k);
    var e := WordEnd(t, s);
    if k < s && s < e then Some((s, e)) else None
  }

  /** A run of blanks at position `k` followed by a word. */
  lemma SpacedWordOf(t: string, k: nat, ws: string, w: string)
    requires PieceAt(t, k, ws) && PieceAt(t, k + |ws|, w)
    requires IsSpaces(ws) && IsWord(w)
    requires k + |ws| + |w| == |t| || !IsWordChar(t[k + |ws| + |w|])
    ensures SpacedWord(t, k) == Some((k + |ws|, k + |ws| + |w|))
  {
    forall i | k <= i < k + |ws|
      ensures IsSpace(t[i])
    {
      PieceChar(t, k, ws, i - k);
    }
    PieceChar(t, k + |ws|, w, 0);
    SpaceEndOfRun(t, k, k + |ws|);
    forall i | k + |ws| <= i < k + |ws| + |w|
      ensures IsWordChar(t[i])
    {
      PieceChar(t, k + |ws|, w, i - k - |ws|);
    }
    WordEndOfWord(t, k + |ws|, k + |ws| + |w|);
  }

  lemma SpacedWordSound(t: string, k: nat)
    requires k <= |t| && SpacedWord(t, k).Some?
    ensures IsSpaces(t[k..SpacedWord(t, k).value.0])
    ensures IsWord(t[SpacedWord(t, k).value.0..SpacedWord(t, k).value.1])
  {
    var (s, e) := SpacedWord(t, k).value;
    assert SpaceEnd(t, k) == s && WordEnd(t, s) == e;
    SpaceEndRun(t, k);
    WordEndRun(t, s);
    forall i | 0 <= i < s - k
      ensures IsSpace(t[k..s][i])
    {
      assert t[k..s][i] == t[k + i];
    }
    forall i | 0 <= i < e - s
      ensures IsWordChar(t[s..e][i])
    {
      assert t[s..e][i] == t[s + i];
    }
  }

  /** A run of blanks and a word followed by another run of blanks. */
  lemma SpacedWordBefore(t: string, k: nat, ws: string, w: string, s: nat, e: nat)
    requires IsSpaces(ws) && IsWord(w)
    requires PieceAt(t, k, ws) && s == k + |ws| && PieceAt(t, s, w) && e == s + |w|
    requires e < |t| && IsSpace(t[e])
    ensures SpacedWord(t, k) == Some((s, e))
  {
    SpacedWordOf(t, k, ws, w);
  }

  /** A greedy `\s*` over a blank piece that is followed by something else stops
      where the piece ends. */
  lemma BlankEnd(t: string, k: nat, ws: string)
    requires PieceAt(t, k, ws) && IsBlank(ws)
    requires k + |ws| == |t| || !IsSpace(t[k + |ws|])
    ensures SpaceEnd(t, k) == k + |ws|
  {
    forall i | k <= i < k + |ws|
      ensures IsSpace(t[i])
    {
      PieceChar(t, k, ws, i - k);
    }
    SpaceEndOfRun(t, k, k + |ws|);
  }

  /** What a greedy `\s*` takes is blank. */
  lemma BlankRead(t: string, k: nat)
    requires k <= |t|
    ensures IsBlank(t[k..SpaceEnd(t, k)])
  {
    SpaceEndRun(t, k);
    var s := SpaceEnd(t, k);
    forall i | 0 <= i < s - k
      ensures IsSpace(t[k..s][i])
    {
      assert t[k..s][i] == t[k + i];
    }
  }

  function LowerChar(c: char): char {
    if 'A' <= c <= 'Z' then (c as int + 32) as char else c
  }

  /** `s.lower()` restricted to ASCII letters. */
  function Lower(s: string): (r: string)
    ensures |r| == |s|
    ensures forall i :: 0 <= i < |s| ==> r[i] == LowerChar(s[i])
  {
    seq(|s|, i requires 0 <= i < |s| => LowerChar(s[i]))
  }

  /** `s.replace(pat, rep)`: every non-overlapping occurrence, scanning left to right. */
  function ReplaceAll(s: string, pat: string, rep: string): string
    requires pat != []
    decreases |s|
  {
    if |s| < |pat| then s
    else if s[..|pat|] == pat then rep + ReplaceAll(s[|pat|..], pat, rep)
    else [s[0]] + ReplaceAll(s[1..], pat, rep)
  }

  /** `s.replace(c, d)` for single characters. */
  function ReplaceChar(s: string, c: char, d: char): (r: string)
    ensures |r| == |s|
    ensures forall i :: 0 <= i < |s| ==> r[i] == if s[i] == c then d else s[i]
  {
    seq(|s|, i requires 0 <= i < |s| => if s[i] == c then d else s[i])
  }

  /** `s.replace(c, "")` for a single character. */
  function RemoveChar(s: string, c: char): (r: string)
    ensures forall x :: x in r <==> x in s && x != c
    decreases |s|
  {
    if s == [] then []
    else if s[0] == c then RemoveChar(s[1..], c)
    else [s[0]] + RemoveChar(s[1..], c)
  }

  /** `s.lstrip(c)` */
  function TrimStart(s: string, c: char): (r: string)
    ensures |r| <= |s| && r == s[|s| - |r|..]
    ensures r == [] || r[0] != c
    decreases |s|
  {
    if s != [] && s[0] == c then TrimStart(s[1..], c) else s
  }

  /** `s.rstrip(c)` */
  function TrimEnd(s: string, c: char): (r: string)
    ensures |r| <= |s| && r == s[..|r|]
    ensures r == [] || r[|r| - 1] != c
    decreases |s|
  {
    if s != [] && s[|s| - 1] == c then TrimEnd(s[..|s| - 1], c) else s
  }

  /** `s.strip(c)` */
  function Strip(s: string, c: char): string {
    TrimEnd(TrimStart(s, c), c)
  }

  /** `sep.join(parts)` */
  function Join(parts: seq<string>, sep: string): string
    decreases |parts|
  {
    if parts == [] then ""
    else if |parts| == 1 then parts[0]
    else parts[0] + sep + Join(parts[1..], sep)
  }

  // Pieces of a text at known positions.

  /** The `i`-th character of a piece. */
  lemma PieceChar(t: string, k: nat, p: string, i: nat)
    requires PieceAt(t, k, p) && i < |p|
    ensures t[k + i] == p[i]
  {
    assert t[k..k + |p|][i] == p[i];
  }

  /** A piece made of two parts holds both, one after the other. */
  lemma PieceSplit(t: string, k: nat, a: string, b: string)
    requires PieceAt(t, k, a + b)
    ensures PieceAt(t, k, a) && PieceAt(t, k + |a|, b)
  {
    assert t[k..k + |a|] == t[k..k + |a + b|][..|a|];
    assert t[k + |a|..k + |a| + |b|] == t[k..k + |a + b|][|a|..];
  }

  /** Two pieces side by side make one. */
  lemma PieceJoin(t: string, k: nat, a: string, b: string)
    requires PieceAt(t, k, a) && PieceAt(t, k + |a|, b)
    ensures PieceAt(t, k, a + b)
  {
    assert t[k..k + |a + b|] == t[k..k + |a|] + t[k + |a|..k + |a| + |b|];
  }

  /** A text occurs in itself at position 0. */
  lemma PieceWhole(t: string)
    ensures PieceAt(t, 0, t)
  {
    assert t[0..|t|] == t;
  }

  /** A piece of a piece is a piece of the whole. */
  lemma PieceShift(t: string, a: nat, r: string, b: nat, p: string)
    requires PieceAt(t, a, r) && PieceAt(r, b, p)
    ensures PieceAt(t, a + b, p)
  {
    forall i | 0 <= i < |p|
      ensures t[a + b + i] == p[i]
    {
      PieceChar(r, b, p, i);
      PieceChar(t, a, r, b + i);
    }
    assert t[a + b..a + b + |p|] == p;
  }

  /** A piece of the whole that lies within a piece `r` is a piece of `r`. */
  lemma PieceInside(t: string, a: nat, r: string, j: nat, p: string)
    requires PieceAt(t, a, r) && PieceAt(t, j, p)
    requires a <= j && j + |p| <= a + |r|
    ensures PieceAt(r, j - a, p)
  {
    forall i | 0 <= i < |p|
      ensures r[j - a + i] == p[i]
    {
      PieceChar(t, j, p, i);
      PieceChar(t, a, r, j - a + i);
    }
    assert r[j - a..j - a + |p|] == p;
  }

  /** A text that occurs at some position is `in` the whole. */
  lemma {:induction false} PieceContains(s: string, k: nat, p: string)
    requires PieceAt(s, k, p)
    ensures Contains(s, p)
    decreases k
  {
    if k == 0 {
      assert s[..|p|] == p;
    } else {
      assert s[1..][k - 1..k - 1 + |p|] == s[k..k + |p|];
      PieceContains(s[1..], k - 1, p);
    }
  }

  /** Every part of a joined text occurs in it. */
  lemma {:induction false} JoinPiece(parts: seq<string>, sep: string, i: nat) returns (k: nat)
    requires i < |parts|
    ensures PieceAt(Join(parts, sep), k, parts[i])
    decreases |parts|
  {
    var j := Join(parts, sep);
    PieceWhole(j);
    if |parts| == 1 {
      k := 0;
    } else {
      var rest := Join(parts[1..], sep);
      assert j == (parts[0] + sep) + rest;
      PieceSplit(j, 0, parts[0] + sep, rest);
      if i == 0 {
        PieceSplit(j, 0, parts[0], sep);
        k := 0;
      } else {
        var k1 := JoinPiece(parts[1..], sep, i - 1);
        PieceShift(j, |parts[0] + sep|, rest, k1, parts[i]);
        k := |parts[0] + sep| + k1;
      }
    }
  }

  lemma SliceConcat(t: string, a: nat, b: nat, c: nat)
    requires a <= b <= c <= |t|
    ensures t[a..b] + t[b..c] == t[a..c]
  {
  }

  // Searching.

  /** `re.search` for a pattern whose match at position `j` is `probe(j)`: the
      first match at a position from `k` up to `n`. */
  function FirstMatch<T>(probe: nat -> Option<T>, k: nat, n: nat): Option<T>
    requires k <= n
    decreases n - k
  {
    match probe(k)
    case Some(x) => Some(x)
    case None => if k == n then None else FirstMatch(probe, k + 1, n)
  }

  /** What the search returns is the match at some position, and no earlier
      position matches. */
  lemma {:induction false} FirstMatchSound<T>(probe: nat -> Option<T>, k0: nat, n: nat, x: T) returns (k: nat)
    requires k0 <= n && FirstMatch(probe, k0, n) == Some(x)
    ensures k0 <= k <= n && probe(k) == Some(x)
    ensures forall j :: k0 <= j < k ==> probe(j).None?
    decreases n - k0
  {
    if probe(k0).Some? {
      k := k0;
    } else {
      k := FirstMatchSound(probe, k0 + 1, n, x);
    }
  }

  /** The search finds the first position that matches. */
  lemma {:induction false} FirstMatchFinds<T>(probe: nat -> Option<T>, k0: nat, k: nat, n: nat)
    requires k0 <= k <= n && probe(k).Some?
    requires forall j :: k0 <= j < k ==> probe(j).None?
    ensures FirstMatch(probe, k0, n) == probe(k)
    decreases k - k0
  {
    if k0 < k {
      FirstMatchFinds(probe, k0 + 1, k, n);
    }
  }

  /** A search over positions that never match finds nothing. */
  lemma {:induction false} FirstMatchMisses<T>(probe: nat -> Option<T>, k0: nat, n: nat)
    requires k0 <= n
    requires forall j :: k0 <= j <= n ==> probe(j).None?
    ensures FirstMatch(probe, k0, n).None?
    decreases n - k0
  {
    if k0 < n {
      FirstMatchMisses(probe, k0 + 1, n);
    }
  }

  // Chaining sequence equalities, one step at a time.

  lemma ConsSame<T>(d: T, a: seq<T>, b: seq<T>, c: seq<T>)
    requires a == [d] + b && b == c
    ensures a == [d] + c
  {
  }

  lemma ConsThenAppend<T>(ds: seq<T>, a: seq<T>, b: seq<T>, c: seq<T>)
    requires ds != [] && a == [ds[0]] + b && b == ds[1..] + c
    ensures a == ds + c
  {
    assert [ds[0]] + ds[1..] == ds;
  }

  lemma EmptyThenAppend<T>(ds: seq<T>, a: seq<T>)
    requires ds == []
    ensures ds + a == a
  {
  }

  /** A loop that appends `x` while its remaining work loses its head `x`. */
  lemma AppendStep<T>(acc: seq<T>, x: T, rest: seq<T>, tail: seq<T>, whole: seq<T>)
    requires acc + rest == whole && rest == [x] + tail
    ensures (acc + [x]) + tail == whole
  {
    assert (acc + [x]) + tail == acc + ([x] + tail);
  }

  /** A loop that appends the chunk `x` while its remaining work loses `x` at its
      head. */
  lemma AppendChunk<T>(acc: seq<T>, x: seq<T>, rest: seq<T>, tail: seq<T>, whole: seq<T>)
    requires acc + rest == whole && rest == x + tail
    ensures (acc + x) + tail == whole
  {
    assert (acc + x) + tail == acc + (x + tail);
  }
}
