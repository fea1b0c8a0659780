/**
 * The two regular expressions the node handlers use to find an interface
 * declaration in model code, written as leftmost matchers.
 *
 *   strict: interface\s+(\w+)\s*{[^}]+}   (controller and view handlers)
 *   loose:  interface\s+(\w+)             (model handler)
 *
 * `\s`, `\w`, `{` and `}` are pairwise disjoint, so every quantifier in both
 * patterns has exactly one way to succeed: each run is maximal and `[^}]+`
 * ends at the first `}`. Matching at a position is therefore a function, and
 * `String.prototype.match` without the `g` flag returns the match at the
 * smallest position where one exists. Each matcher is tied to a declarative
 * description of the text it accepts by a soundness and a completeness lemma.
 */
module InterfacePattern {
  import opened Wrappers
  import opened Text

  const Keyword: string := "interface"

  datatype CharClass = Space | Word

  predicate In(cls: CharClass, c: char) {
    match cls
    case Space => IsSpace(c)
    case Word => IsWord(c)
  }

  predicate AllIn(cls: CharClass, s: string) {
    forall i :: 0 <= i < |s| ==> In(cls, s[i])
  }

  /** A match: where it starts, capture group 1 (the identifier) and group 0 (the whole matched text). */
  datatype InterfaceMatch = InterfaceMatch(start: nat, ident: string, text: string)

  predicate OccursAt(s: string, p: nat, t: string) {
    p + |t| <= |s| && s[p..p + |t|] == t
  }

  predicate KeywordAt(s: string, p: nat) {
    OccursAt(s, p, Keyword)
  }

  /** End of the longest run of `cls` characters starting at `i`. */
  function RunEnd(s: string, i: nat, cls: CharClass): (e: nat)
    requires i <= |s|
    ensures i <= e <= |s|
    ensures forall k :: i <= k < e ==> In(cls, s[k])
    ensures e == |s| || !In(cls, s[e])
    decreases |s| - i
  {
    if i < |s| && In(cls, s[i]) then RunEnd(s, i + 1, cls) else i
  }

  /** Index of the first `c` at or after `i`. */
  function IndexFrom(s: string, c: char, i: nat): (r: Option<nat>)
    requires i <= |s|
    ensures r.Some? ==> i <= r.value < |s| && s[r.value] == c
    ensures forall k :: i <= k < |s| && (r.None? || k < r.value) ==> s[k] != c
    decreases |s| - i
  {
    if i == |s| then None
    else if s[i] == c then Some(i)
    else IndexFrom(s, c, i + 1)
  }

  lemma {:induction false} RunEndAt(s: string, i: nat, j: nat, cls: CharClass)
    requires i <= j <= |s|
    requires forall k :: i <= k < j ==> In(cls, s[k])
    requires j == |s| || !In(cls, s[j])
    ensures RunEnd(s, i, cls) == j
    decreases j - i
  {
    if i < j {
      RunEndAt(s, i + 1, j, cls);
    }
  }

  lemma {:induction false} IndexFromAt(s: string, c: char, i: nat, j: nat)
    requires i <= j < |s| && s[j] == c
    requires forall k :: i <= k < j ==> s[k] != c
    ensures IndexFrom(s, c, i) == Some(j)
    decreases j - i
  {
    if i < j {
      IndexFromAt(s, c, i + 1, j);
    }
  }

  // ---------------------------------------------------------------------
  // The strict pattern  interface\s+(\w+)\s*{[^}]+}
  // ---------------------------------------------------------------------

  /** The pieces of a text the strict pattern accepts. */
  predicate StrictParts(ws1: string, ident: string, ws2: string, body: string) {
    && |ws1| > 0 && AllIn(Space, ws1)
    && |ident| > 0 && AllIn(Word, ident)
    && AllIn(Space, ws2)
    && |body| > 0 && '}' !in body
  }

  function StrictText(ws1: string, ident: string, ws2: string, body: string): string {
    Keyword + ws1 + ident + ws2 + "{" + body + "}"
  }

  /** `t` is a text the strict pattern accepts, with `ident` as its first capture group. */
  ghost predicate StrictDeclaration(t: string, ident: string) {
    exists ws1, ws2, body :: StrictParts(ws1, ident, ws2, body) && t == StrictText(ws1, ident, ws2, body)
  }

  /**
   * The strict pattern tried at position `p` only: a match starts with the
   * keyword at `p`, lies inside the text and ends with the closing brace.
   */
  function StrictMatchAt(s: string, p: nat): (r: Option<InterfaceMatch>)
    requires p <= |s|
    ensures !KeywordAt(s, p) ==> r.None?
    ensures r.Some? ==> r.value.start == p && p + |r.value.text| <= |s| && |r.value.ident| > 0
    ensures r.Some? ==> |r.value.text| > |Keyword| && s[p + |r.value.text| - 1] == '}'
  {
    if !KeywordAt(s, p) then None
    else
      var a := p + |Keyword|;
      var b := RunEnd(s, a, Space);
      var c := RunEnd(s, b, Word);
      var d := RunEnd(s, c, Space);
      if b == a || c == b || d == |s| || s[d] != '{' then None
      else
        match IndexFrom(s, '}', d + 1)
        case None => None
        case Some(e) => if e == d + 1 then None else Some(InterfaceMatch(p, s[b..c], s[p..e + 1]))
  }

  lemma SliceSplit(s: string, i: nat, j: nat, k: nat)
    requires i <= j <= k <= |s|
    ensures s[i..k] == s[i..j] + s[j..k]
  {
  }

  lemma OccursSplit(s: string, p: nat, x: string, y: string)
    requires OccursAt(s, p, x + y)
    ensures OccursAt(s, p, x) && OccursAt(s, p + |x|, y)
  {
    assert s[p..p + |x|] == (x + y)[..|x|];
    assert s[p + |x|..p + |x| + |y|] == (x + y)[|x|..];
  }

  lemma OccursAllIn(s: string, q: nat, w: string, cls: CharClass)
    requires OccursAt(s, q, w) && AllIn(cls, w)
    ensures forall k :: q <= k < q + |w| ==> In(cls, s[k])
  {
    forall k | q <= k < q + |w| ensures In(cls, s[k]) {
      assert s[q..q + |w|][k - q] == w[k - q];
    }
  }

  lemma SlicesCompose(s: string, p: nat, a: nat, b: nat, c: nat, d: nat, e: nat)
    requires p <= a <= b <= c <= d < e < |s| && s[d] == '{' && s[e] == '}'
    ensures s[p..e + 1] == s[p..a] + s[a..b] + s[b..c] + s[c..d] + "{" + s[d + 1..e] + "}"
  {
    SliceSplit(s, p, e, e + 1);
    SliceSplit(s, p, d + 1, e);
    SliceSplit(s, p, d, d + 1);
    SliceSplit(s, p, c, d);
    SliceSplit(s, p, b, c);
    SliceSplit(s, p, a, b);
    assert s[d..d + 1] == "{" && s[e..e + 1] == "}";
  }

  /** The positions the strict matcher computes when it matches at `p`. */
  lemma StrictMatchAtUnfold(s: string, p: nat) returns (b: nat, c: nat, d: nat, e: nat)
    requires p <= |s| && StrictMatchAt(s, p).Some?
    ensures KeywordAt(s, p)
    ensures p + |Keyword| < b == RunEnd(s, p + |Keyword|, Space)
    ensures b < c == RunEnd(s, b, Word)
    ensures d == RunEnd(s, c, Space) && d < |s| && s[d] == '{'
    ensures IndexFrom(s, '}', d + 1) == Some(e) && e > d + 1
    ensures StrictMatchAt(s, p) == Some(InterfaceMatch(p, s[b..c], s[p..e + 1]))
  {
    b := RunEnd(s, p + |Keyword|, Space);
    c := RunEnd(s, b, Word);
    d := RunEnd(s, c, Space);
    e := IndexFrom(s, '}', d + 1).value;
  }

  /** Text whose runs and braces are where the strict matcher looks for them splits into strict parts. */
  lemma StrictPieces(s: string, p: nat, b: nat, c: nat, d: nat, e: nat) returns (ws1: string, ws2: string, body: string)
    requires KeywordAt(s, p)
    requires p + |Keyword| < b == RunEnd(s, p + |Keyword|, Space)
    requires b < c == RunEnd(s, b, Word)
    requires d == RunEnd(s, c, Space) && d < |s| && s[d] == '{'
    requires IndexFrom(s, '}', d + 1) == Some(e) && e > d + 1
    ensures StrictParts(ws1, s[b..c], ws2, body) && s[p..e + 1] == StrictText(ws1, s[b..c], ws2, body)
  {
    var a := p + |Keyword|;
    var ident;
    ws1, ident, ws2, body := s[a..b], s[b..c], s[c..d], s[d + 1..e];
    assert '}' !in body by {
      forall k | 0 <= k < |body| ensures body[k] != '}' {
        assert body[k] == s[d + 1 + k];
      }
    }
    assert StrictParts(ws1, ident, ws2, body);
    assert s[p..a] == Keyword;
    SlicesCompose(s, p, a, b, c, d, e);
  }

  /** What the matcher finds at `p` is a strict declaration occurring at `p`; its parts are returned. */
  lemma StrictMatchAtSound(s: string, p: nat) returns (ws1: string, ws2: string, body: string)
    requires p <= |s| && StrictMatchAt(s, p).Some?
    ensures var m := StrictMatchAt(s, p).value;
      && m.start == p && OccursAt(s, p, m.text)
      && StrictParts(ws1, m.ident, ws2, body) && m.text == StrictText(ws1, m.ident, ws2, body)
      && StrictDeclaration(m.text, m.ident)
  {
    var b, c, d, e := StrictMatchAtUnfold(s, p);
    ws1, ws2, body := StrictPieces(s, p, b, c, d, e);
  }

  lemma OccursWithout(s: string, q: nat, w: string, c: char)
    requires OccursAt(s, q, w) && c !in w
    ensures forall k :: q <= k < q + |w| ==> s[k] != c
  {
    forall k | q <= k < q + |w| ensures s[k] != c {
      assert s[q..q + |w|][k - q] == w[k - q];
      assert w[k - q] in w;
    }
  }

  /** Each piece of a strict declaration occurring at `p` occurs at its own offset. */
  lemma StrictOccurrences(s: string, p: nat, ws1: string, ident: string, ws2: string, body: string)
    requires OccursAt(s, p, StrictText(ws1, ident, ws2, body))
    ensures var a := p + |Keyword|;
      var b := a + |ws1|;
      var c := b + |ident|;
      var d := c + |ws2|;
      && OccursAt(s, p, Keyword) && OccursAt(s, a, ws1) && OccursAt(s, b, ident) && OccursAt(s, c, ws2)
      && OccursAt(s, d, "{") && OccursAt(s, d + 1, body) && OccursAt(s, d + 1 + |body|, "}")
  {
    var t1 := Keyword + ws1;
    var t2 := t1 + ident;
    var t3 := t2 + ws2;
    var t4 := t3 + "{";
    var t5 := t4 + body;
    assert t5 + "}" == StrictText(ws1, ident, ws2, body);
    OccursSplit(s, p, t5, "}");
    OccursSplit(s, p, t4, body);
    OccursSplit(s, p, t3, "{");
    OccursSplit(s, p, t2, ws2);
    OccursSplit(s, p, t1, ident);
    OccursSplit(s, p, Keyword, ws1);
  }

  /** The three runs of a strict declaration occurring at `p` end where the matcher's scans stop. */
  lemma StrictRuns(s: string, p: nat, ws1: string, ident: string, ws2: string, body: string,
                   a: nat, b: nat, c: nat, d: nat)
    requires StrictParts(ws1, ident, ws2, body)
    requires OccursAt(s, p, StrictText(ws1, ident, ws2, body))
    requires a == p + |Keyword| && b == a + |ws1| && c == b + |ident| && d == c + |ws2|
    ensures RunEnd(s, a, Space) == b
    ensures RunEnd(s, b, Word) == c
    ensures RunEnd(s, c, Space) == d
  {
    StrictOccurrences(s, p, ws1, ident, ws2, body);
    assert s[d..d + 1][0] == '{';
    OccursAllIn(s, a, ws1, Space);
    OccursAllIn(s, b, ident, Word);
    OccursAllIn(s, c, ws2, Space);
    RunEndAt(s, a, b, Space);
    RunEndAt(s, b, c, Word);
    RunEndAt(s, c, d, Space);
  }

  /** The braces of a strict declaration occurring at `p` are where the matcher looks for them. */
  lemma StrictBraces(s: string, p: nat, ws1: string, ident: string, ws2: string, body: string, d: nat, e: nat)
    requires StrictParts(ws1, ident, ws2, body)
    requires OccursAt(s, p, StrictText(ws1, ident, ws2, body))
    requires d == p + |Keyword| + |ws1| + |ident| + |ws2| && e == d + 1 + |body|
    ensures e < |s| && s[d] == '{'
    ensures IndexFrom(s, '}', d + 1) == Some(e)
  {
    StrictOccurrences(s, p, ws1, ident, ws2, body);
    assert s[d..d + 1][0] == '{' && s[e..e + 1][0] == '}';
    OccursWithout(s, d + 1, body, '}');
    IndexFromAt(s, '}', d + 1, e);
  }

  /** Every strict declaration occurring at `p` is what the matcher finds at `p`. */
  lemma StrictMatchAtComplete(s: string, p: nat, ws1: string, ident: string, ws2: string, body: string)
    requires StrictParts(ws1, ident, ws2, body)
    requires OccursAt(s, p, StrictText(ws1, ident, ws2, body))
    ensures StrictMatchAt(s, p) == Some(InterfaceMatch(p, ident, StrictText(ws1, ident, ws2, body)))
  {
    var a := p + |Keyword|;
    var b := a + |ws1|;
    var c := b + |ident|;
    var d := c + |ws2|;
    var e := d + 1 + |body|;
    StrictRuns(s, p, ws1, ident, ws2, body, a, b, c, d);
    StrictBraces(s, p, ws1, ident, ws2, body, d, e);
    StrictOccurrences(s, p, ws1, ident, ws2, body);
    StrictMatchAtFound(s, p, b, c, d, e, ident, StrictText(ws1, ident, ws2, body));
  }

  /** The matcher's answer at `p` once its four scans are known. */
  lemma StrictMatchAtFound(s: string, p: nat, b: nat, c: nat, d: nat, e: nat, ident: string, text: string)
    requires KeywordAt(s, p)
    requires p + |Keyword| < b == RunEnd(s, p + |Keyword|, Space)
    requires b < c == RunEnd(s, b, Word)
    requires d == RunEnd(s, c, Space) && d < |s| && s[d] == '{'
    requires IndexFrom(s, '}', d + 1) == Some(e) && e > d + 1
    requires s[b..c] == ident && s[p..e + 1] == text
    ensures StrictMatchAt(s, p) == Some(InterfaceMatch(p, ident, text))
  {
  }

  function StrictSearch(s: string, p: nat): (r: Option<InterfaceMatch>)
    requires p <= |s|
    ensures r.Some? ==> p <= r.value.start <= |s| && StrictMatchAt(s, r.value.start) == r
    ensures forall q :: p <= q <= |s| && (r.None? || q < r.value.start) ==> StrictMatchAt(s, q).None?
    decreases |s| - p
  {
    var m := StrictMatchAt(s, p);
    if m.Some? then m
    else if p == |s| then None
    else StrictSearch(s, p + 1)
  }

  /** `s.match(/interface\s+(\w+)\s*{[^}]+}/)`: the match at the smallest position, if any. */
  function StrictMatch(s: string): (r: Option<InterfaceMatch>)
    ensures r.Some? ==> r.value.start <= |s| && StrictMatchAt(s, r.value.start) == r
    ensures forall q :: 0 <= q <= |s| && (r.None? || q < r.value.start) ==> StrictMatchAt(s, q).None?
  {
    StrictSearch(s, 0)
  }

  /** Some text the strict pattern accepts starts at `p` in `s`. */
  ghost predicate StrictOccursAt(s: string, p: nat) {
    exists ws1, ident, ws2, body ::
      StrictParts(ws1, ident, ws2, body) && OccursAt(s, p, StrictText(ws1, ident, ws2, body))
  }

  /**
   * The strict match, stated against the declarative description: there is
   * none exactly when no declaration occurs in `s`; otherwise it is a
   * declaration occurring in `s`, and no declaration starts earlier.
   */
  lemma StrictMatchIsLeftmostDeclaration(s: string)
    ensures StrictMatch(s).None? <==> forall q: nat :: !StrictOccursAt(s, q)
    ensures StrictMatch(s).Some? ==>
      var m := StrictMatch(s).value;
      && OccursAt(s, m.start, m.text) && StrictDeclaration(m.text, m.ident)
      && forall q: nat :: q < m.start ==> !StrictOccursAt(s, q)
  {
    if StrictMatch(s).Some? {
      var m := StrictMatch(s).value;
      var ws1, ws2, body := StrictMatchAtSound(s, m.start);
      assert StrictOccursAt(s, m.start);
    }
    forall q: nat | StrictOccursAt(s, q)
      ensures StrictMatch(s).Some? && StrictMatch(s).value.start <= q
    {
      var ws1, ident, ws2, body :| StrictParts(ws1, ident, ws2, body) && OccursAt(s, q, StrictText(ws1, ident, ws2, body));
      StrictMatchAtComplete(s, q, ws1, ident, ws2, body);
    }
  }

  /**
   * `t` is the leftmost strict declaration of `s` and `ident` its
   * identifier: it occurs at some position and no declaration starts earlier.
   */
  ghost predicate LeftmostStrictDeclaration(s: string, t: string, ident: string) {
    exists q: nat ::
      && OccursAt(s, q, t) && StrictDeclaration(t, ident)
      && forall p: nat :: p < q ==> !StrictOccursAt(s, p)
  }

  /** What the strict matcher captures is the leftmost strict declaration and its identifier. */
  lemma StrictMatchIsLeftmost(s: string)
    requires StrictMatch(s).Some?
    ensures LeftmostStrictDeclaration(s, StrictMatch(s).value.text, StrictMatch(s).value.ident)
  {
    StrictMatchIsLeftmostDeclaration(s);
    var m := StrictMatch(s).value;
    assert OccursAt(s, m.start, m.text) && StrictDeclaration(m.text, m.ident);
  }

  /** Inside a strict declaration, `}` occurs only as the last character. */
  lemma StrictTextCloseOnlyAtEnd(ws1: string, ident: string, ws2: string, body: string, k: nat)
    requires StrictParts(ws1, ident, ws2, body)
    requires k + 1 < |StrictText(ws1, ident, ws2, body)|
    ensures StrictText(ws1, ident, ws2, body)[k] != '}'
  {
    var t := StrictText(ws1, ident, ws2, body);
    var a := |Keyword|;
    var b := a + |ws1|;
    var c := b + |ident|;
    var d := c + |ws2|;
    if k < a {
      assert t[k] == Keyword[k];
    } else if k < b {
      assert t[k] == ws1[k - a] && In(Space, ws1[k - a]);
    } else if k < c {
      assert t[k] == ident[k - b] && In(Word, ident[k - b]);
    } else if k < d {
      assert t[k] == ws2[k - c] && In(Space, ws2[k - c]);
    } else if k == d {
      assert t[k] == '{';
    } else {
      assert t[k] == body[k - d - 1];
      assert body[k - d - 1] in body;
    }
  }

  lemma OccursExtend(s: string, more: string, p: nat, t: string)
    ensures OccursAt(s, p, t) ==> OccursAt(s + more, p, t)
    ensures OccursAt(s + more, p, t) && p + |t| <= |s| ==> OccursAt(s, p, t)
  {
    if p + |t| <= |s| {
      assert (s + more)[p..p + |t|] == s[p..p + |t|];
    }
  }

  /** A position that fails in `s` still fails after appending, when a `}` of `s` lies ahead of it. */
  lemma StrictMatchAtExtendNone(s: string, more: string, q: nat, close: nat)
    requires q < close < |s| && s[close] == '}'
    requires StrictMatchAt(s, q).None?
    ensures StrictMatchAt(s + more, q).None?
  {
    if StrictMatchAt(s + more, q).Some? {
      var ident := StrictMatchAt(s + more, q).value.ident;
      var ws1, ws2, body := StrictMatchAtSound(s + more, q);
      StrictTextFits(s, more, q, close, ws1, ident, ws2, body);
      StrictMatchAtComplete(s, q, ws1, ident, ws2, body);
    }
  }

  /** A strict declaration at `q` in `s + more` ends by the first `}` of `s` after `q`. */
  lemma StrictTextFits(s: string, more: string, q: nat, close: nat,
                       ws1: string, ident: string, ws2: string, body: string)
    requires q < close < |s| && s[close] == '}'
    requires StrictParts(ws1, ident, ws2, body)
    requires OccursAt(s + more, q, StrictText(ws1, ident, ws2, body))
    ensures OccursAt(s, q, StrictText(ws1, ident, ws2, body))
  {
    var t := StrictText(ws1, ident, ws2, body);
    if q + |t| > |s| {
      assert (s + more)[q..q + |t|][close - q] == s[close];
      StrictTextCloseOnlyAtEnd(ws1, ident, ws2, body, close - q);
    } else {
      OccursExtend(s, more, q, t);
    }
  }

  /** A match found at `p` is still found there after appending. */
  lemma StrictMatchAtExtend(s: string, more: string, p: nat)
    requires p <= |s| && StrictMatchAt(s, p).Some?
    ensures StrictMatchAt(s + more, p) == StrictMatchAt(s, p)
  {
    var m := StrictMatchAt(s, p).value;
    var ws1, ws2, body := StrictMatchAtSound(s, p);
    OccursExtend(s, more, p, m.text);
    StrictMatchAtComplete(s + more, p, ws1, m.ident, ws2, body);
  }

  /** A match at `p` with none before it is the leftmost match. */
  lemma StrictMatchAtLeftmost(s: string, p: nat)
    requires p <= |s| && StrictMatchAt(s, p).Some?
    requires forall q :: 0 <= q < p ==> StrictMatchAt(s, q).None?
    ensures StrictMatch(s) == StrictMatchAt(s, p)
  {
  }

  /**
   * Text appended after a strict match does not change the match: nothing
   * earlier can start matching, because an earlier declaration would have to
   * run across the found declaration's closing `}`.
   */
  lemma StrictMatchPrefixStable(s: string, more: string)
    requires StrictMatch(s).Some?
    ensures StrictMatch(s + more) == StrictMatch(s)
  {
    var p := StrictMatch(s).value.start;
    StrictMatchExtendAt(s, more, p);
  }

  /** A leftmost match at `p` stays the leftmost match when text is appended. */
  lemma StrictMatchExtendAt(s: string, more: string, p: nat)
    requires p <= |s| && StrictMatchAt(s, p).Some?
    requires forall q :: 0 <= q < p ==> StrictMatchAt(s, q).None?
    ensures StrictMatch(s + more) == StrictMatchAt(s, p)
  {
    var m := StrictMatchAt(s, p).value;
    StrictMatchAtExtend(s, more, p);
    StrictMatchNoneBefore(s, more, p, p + |m.text| - 1);
    StrictMatchAtLeftmost(s + more, p);
  }

  /** No position before a `}` of `s` at which `s` has no match gains one when text is appended. */
  lemma StrictMatchNoneBefore(s: string, more: string, p: nat, close: nat)
    requires p < close < |s| && s[close] == '}'
    requires forall q :: 0 <= q < p ==> StrictMatchAt(s, q).None?
    ensures forall q :: 0 <= q < p ==> StrictMatchAt(s + more, q).None?
  {
    forall q | 0 <= q < p ensures StrictMatchAt(s + more, q).None? {
      StrictMatchAtExtendNone(s, more, q, close);
    }
  }

  // ---------------------------------------------------------------------
  // The loose pattern  interface\s+(\w+)
  // ---------------------------------------------------------------------

  /** Position `e` ends the text or holds a non-word character: a `\w+` run cannot go on past it. */
  predicate WordEndsAt(s: string, e: nat) {
    e == |s| || (e < |s| && !IsWord(s[e]))
  }

  predicate LooseParts(ws1: string, ident: string) {
    |ws1| > 0 && AllIn(Space, ws1) && |ident| > 0 && AllIn(Word, ident)
  }

  /** The loose pattern tried at position `p` only; `\w+` is greedy, so the identifier is a maximal run. */
  function LooseMatchAt(s: string, p: nat): (r: Option<InterfaceMatch>)
    requires p <= |s|
    ensures !KeywordAt(s, p) ==> r.None?
    ensures r.Some? ==> r.value.start == p && p + |r.value.text| <= |s| && |r.value.ident| > 0
  {
    if !KeywordAt(s, p) then None
    else
      var a := p + |Keyword|;
      var b := RunEnd(s, a, Space);
      var c := RunEnd(s, b, Word);
      if b == a || c == b then None
      else Some(InterfaceMatch(p, s[b..c], s[p..c]))
  }

  /** What the loose matcher finds at `p`: keyword, whitespace and a whole word, nothing after it in the word. */
  lemma LooseMatchAtSound(s: string, p: nat)
    requires p <= |s| && LooseMatchAt(s, p).Some?
    ensures var m := LooseMatchAt(s, p).value;
      && m.start == p && OccursAt(s, p, m.text)
      && LooseDeclaration(m.text, m.ident)
      && WordEndsAt(s, p + |m.text|)
  {
    var m := LooseMatchAt(s, p).value;
    var a := p + |Keyword|;
    var b := RunEnd(s, a, Space);
    var c := RunEnd(s, b, Word);
    var ws1 := s[a..b];
    assert LooseParts(ws1, m.ident);
    assert s[p..c] == s[p..a] + ws1 + s[b..c];
  }

  lemma LooseMatchAtComplete(s: string, p: nat, ws1: string, ident: string)
    requires LooseParts(ws1, ident)
    requires OccursAt(s, p, Keyword + ws1 + ident)
    requires WordEndsAt(s, p + |Keyword + ws1 + ident|)
    ensures LooseMatchAt(s, p) == Some(InterfaceMatch(p, ident, Keyword + ws1 + ident))
  {
    var t1 := Keyword + ws1;
    var a := p + |Keyword|;
    var b := a + |ws1|;
    var c := b + |ident|;
    OccursSplit(s, p, t1, ident);
    OccursSplit(s, p, Keyword, ws1);
    OccursAllIn(s, a, ws1, Space);
    OccursAllIn(s, b, ident, Word);
    RunEndAt(s, a, b, Space);
    RunEndAt(s, b, c, Word);
  }

  function LooseSearch(s: string, p: nat): (r: Option<InterfaceMatch>)
    requires p <= |s|
    ensures r.Some? ==> p <= r.value.start <= |s| && LooseMatchAt(s, r.value.start) == r
    ensures forall q :: p <= q <= |s| && (r.None? || q < r.value.start) ==> LooseMatchAt(s, q).None?
    decreases |s| - p
  {
    var m := LooseMatchAt(s, p);
    if m.Some? then m
    else if p == |s| then None
    else LooseSearch(s, p + 1)
  }

  /** `s.match(/interface\s+(\w+)/)`: the match at the smallest position, if any. */
  function LooseMatch(s: string): (r: Option<InterfaceMatch>)
    ensures r.Some? ==> r.value.start <= |s| && LooseMatchAt(s, r.value.start) == r
    ensures forall q :: 0 <= q <= |s| && (r.None? || q < r.value.start) ==> LooseMatchAt(s, q).None?
  {
    LooseSearch(s, 0)
  }

  /** `t` is a text the loose pattern accepts, with `ident` as its capture group. */
  ghost predicate LooseDeclaration(t: string, ident: string) {
    exists ws1 :: LooseParts(ws1, ident) && t == Keyword + ws1 + ident
  }

  /** A loose declaration whose identifier is not followed by another word character starts at `p`. */
  ghost predicate LooseOccursAt(s: string, p: nat) {
    exists ws1, ident ::
      && LooseParts(ws1, ident) && OccursAt(s, p, Keyword + ws1 + ident)
      && WordEndsAt(s, p + |Keyword + ws1 + ident|)
  }

  /**
   * The loose match, stated against the declarative description: there is
   * none exactly when no loose declaration occurs; otherwise it is one, with
   * the identifier as long as it goes, and none starts earlier.
   */
  lemma LooseMatchIsLeftmostDeclaration(s: string)
    ensures LooseMatch(s).None? <==> forall q: nat :: !LooseOccursAt(s, q)
    ensures LooseMatch(s).Some? ==>
      var m := LooseMatch(s).value;
      && OccursAt(s, m.start, m.text) && LooseDeclaration(m.text, m.ident)
      && WordEndsAt(s, m.start + |m.text|)
      && forall q: nat :: q < m.start ==> !LooseOccursAt(s, q)
  {
    if LooseMatch(s).Some? {
      LooseMatchOccurs(s);
    }
    LooseOccurrenceFound(s);
  }

  /** The loose match is a loose declaration occurring where it starts, with its identifier taken whole. */
  lemma LooseMatchOccurs(s: string)
    requires LooseMatch(s).Some?
    ensures var m := LooseMatch(s).value;
      && OccursAt(s, m.start, m.text) && LooseDeclaration(m.text, m.ident)
      && WordEndsAt(s, m.start + |m.text|) && LooseOccursAt(s, m.start)
  {
    var m := LooseMatch(s).value;
    LooseMatchAtSound(s, m.start);
    LooseMatchAtOccurs(s, m.start);
  }

  /** What the loose matcher accepts at `p` is a loose declaration occurring at `p`. */
  lemma LooseMatchAtOccurs(s: string, p: nat)
    requires p <= |s| && LooseMatchAt(s, p).Some?
    ensures LooseOccursAt(s, p)
  {
    LooseMatchAtSound(s, p);
    var m := LooseMatchAt(s, p).value;
    var ws1 :| LooseParts(ws1, m.ident) && m.text == Keyword + ws1 + m.ident;
    assert LooseParts(ws1, m.ident) && OccursAt(s, p, Keyword + ws1 + m.ident);
  }

  /** Wherever a loose declaration occurs, the loose matcher finds one there or earlier. */
  lemma LooseOccurrenceFound(s: string)
    ensures forall q: nat :: LooseOccursAt(s, q) ==> LooseMatch(s).Some? && LooseMatch(s).value.start <= q
  {
    forall q: nat | LooseOccursAt(s, q)
      ensures LooseMatch(s).Some? && LooseMatch(s).value.start <= q
    {
      var ws1, ident :| && LooseParts(ws1, ident) && OccursAt(s, q, Keyword + ws1 + ident)
        && WordEndsAt(s, q + |Keyword + ws1 + ident|);
      LooseMatchAtComplete(s, q, ws1, ident);
    }
  }

  /**
   * `ident` is the identifier of the leftmost loose declaration of `s`: a
   * declaration with that identifier, taken as long as it goes, occurs at
   * some position and none starts earlier.
   */
  ghost predicate LeftmostLooseIdent(s: string, ident: string) {
    exists q: nat, t ::
      && OccursAt(s, q, t) && LooseDeclaration(t, ident) && WordEndsAt(s, q + |t|)
      && forall p: nat :: p < q ==> !LooseOccursAt(s, p)
  }

  /** The identifier the loose matcher captures is that of the leftmost loose declaration. */
  lemma LooseMatchIdentIsLeftmost(s: string)
    requires LooseMatch(s).Some?
    ensures LeftmostLooseIdent(s, LooseMatch(s).value.ident)
  {
    LooseMatchIsLeftmostDeclaration(s);
    var m := LooseMatch(s).value;
    assert OccursAt(s, m.start, m.text) && LooseDeclaration(m.text, m.ident) && WordEndsAt(s, m.start + |m.text|);
  }

  /**
   * The loose pattern accepts whatever the strict one does: it finds a match
   * no later than the strict one, and at the same position the same identifier.
   */
  lemma LooseFindsStrict(s: string)
    requires StrictMatch(s).Some?
    ensures LooseMatch(s).Some?
    ensures LooseMatch(s).value.start <= StrictMatch(s).value.start
    ensures LooseMatch(s).value.start == StrictMatch(s).value.start ==>
      LooseMatch(s).value.ident == StrictMatch(s).value.ident
  {
    var p := StrictMatch(s).value.start;
    assert StrictMatchAt(s, p).Some?;
    assert LooseMatchAt(s, p).Some? && LooseMatchAt(s, p).value.ident == StrictMatch(s).value.ident;
  }

  // ---------------------------------------------------------------------
  // Examples
  // ---------------------------------------------------------------------

  lemma KeywordStartsWithI(s: string, p: nat)
    requires KeywordAt(s, p)
    ensures p < |s| && s[p] == 'i'
  {
    assert s[p..p + |Keyword|][0] == Keyword[0];
  }

  /** The strict pattern captures `User` and the whole declaration. */
  lemma StrictMatchExample()
    ensures StrictMatch("interface User { id: string }")
         == Some(InterfaceMatch(0, "User", "interface User { id: string }"))
  {
    var s := "interface User { id: string }";
    assert AllIn(Space, " ") && AllIn(Word, "User");
    assert StrictParts(" ", "User", " ", " id: string ");
    assert StrictText(" ", "User", " ", " id: string ") == s;
    StrictMatchAtComplete(s, 0, " ", "User", " ", " id: string ");
  }

  /** An empty body defeats the strict pattern but not the loose one. */
  lemma EmptyBodyExample()
    ensures StrictMatch("interface X {}") == None
    ensures LooseMatch("interface X {}") == Some(InterfaceMatch(0, "X", "interface X"))
  {
    var s := "interface X {}";
    assert s[9] == ' ' && s[10] == 'X' && s[11] == ' ' && s[12] == '{' && s[13] == '}';
    assert KeywordAt(s, 0) by {
      assert s[0..9] == Keyword;
    }
    RunEndAt(s, 9, 10, Space);
    RunEndAt(s, 10, 11, Word);
    RunEndAt(s, 11, 12, Space);
    IndexFromAt(s, '}', 13, 13);
    assert StrictMatchAt(s, 0) == None;
    forall q | 1 <= q <= |s| ensures StrictMatchAt(s, q) == None {
      if KeywordAt(s, q) {
        KeywordStartsWithI(s, q);
        assert false;
      }
    }
    assert s[0..11] == "interface X";
    assert LooseMatchAt(s, 0) == Some(InterfaceMatch(0, "X", "interface X"));
  }
}
