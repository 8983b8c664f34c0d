/** The fragment of Python's `re` that the metadata scanner uses.  Every
    pattern it searches for is a chain of literal text and capture groups of
    the form `([^x]+)` or `(\d+)`, each group immediately followed by a
    literal whose first character the group cannot contain.  For such a
    chain the backtracking engine has at most one way to match at a given
    position: each group takes the maximal run of its class.  `MatchFrom`
    is that greedy matcher, `Spans` is the declarative meaning of a match,
    and `MatchSound`/`MatchComplete` show the two agree. `Search` is
    `re.search`: the first start position, from the left, at which the
    pattern matches. */
module Patterns {
  import opened Wrappers

  /** The character class of a capture group: `[^c]` or `\d` (ASCII digits). */
  datatype CharClass = Except(c: char) | Digit

  predicate InClass(cls: CharClass, ch: char)
  {
    match cls
    case Except(c) => ch != c
    case Digit => '0' <= ch <= '9'
  }

  /** One piece of a pattern: literal text, or a capture group `(cls+)`. */
  datatype Piece = Lit(s: string) | Grab(cls: CharClass)

  type Pattern = seq<Piece>

  /** The outcome of matching at one position: the captured groups, in order,
      and the index just past the match. */
  datatype Found = Found(groups: seq<string>, end: nat)

  /** The outcome of `re.search`: where the match starts and ends, and its groups. */
  datatype Match = Match(start: nat, end: nat, groups: seq<string>)

  /** Number of capture groups in a pattern. */
  function Groups(pat: Pattern): nat
  {
    if pat == [] then 0 else (if pat[0].Grab? then 1 else 0) + Groups(pat[1..])
  }

  /** Every group is followed by a non-empty literal that starts with a
      character outside the group's class, so a group can end only where its
      maximal run ends. */
  predicate WellFormed(pat: Pattern)
  {
    pat == [] ||
    (WellFormed(pat[1..]) &&
     (pat[0].Grab? ==>
        |pat| > 1 && pat[1].Lit? && |pat[1].s| > 0 && !InClass(pat[0].cls, pat[1].s[0])))
  }

  /** The end of the maximal run of `cls` characters that starts at `i`. */
  function RunEnd(t: string, i: nat, cls: CharClass): (j: nat)
    requires i <= |t|
    ensures i <= j <= |t|
    ensures forall k :: i <= k < j ==> InClass(cls, t[k])
    ensures j == |t| || !InClass(cls, t[j])
    decreases |t| - i
  {
    if i < |t| && InClass(cls, t[i]) then RunEnd(t, i + 1, cls) else i
  }

  /** A run of class characters that is followed by a non-class character (or
      the end of the text) is the maximal run. */
  lemma RunEndUnique(t: string, i: nat, j: nat, cls: CharClass)
    requires i <= j <= |t|
    requires forall k :: i <= k < j ==> InClass(cls, t[k])
    requires j == |t| || !InClass(cls, t[j])
    ensures RunEnd(t, i, cls) == j
  {
  }

  /** The greedy matcher: match `pat` against `t` starting exactly at `i`. */
  function MatchFrom(pat: Pattern, t: string, i: nat): (r: Option<Found>)
    requires i <= |t|
    ensures r.Some? ==> i <= r.value.end <= |t| && |r.value.groups| == Groups(pat)
    decreases |pat|
  {
    if pat == [] then Some(Found([], i))
    else match pat[0]
      case Lit(s) =>
        if i + |s| <= |t| && t[i..i + |s|] == s then MatchFrom(pat[1..], t, i + |s|) else None
      case Grab(cls) =>
        var j := RunEnd(t, i, cls);
        if j == i then None
        else match MatchFrom(pat[1..], t, j)
          case None => None
          case Some(f) => Some(Found([t[i..j]] + f.groups, f.end))
  }

  /** What it means for `t[i..q]` to match `pat` with groups `gs`: the text
      is the pieces laid end to end, each literal verbatim and each group a
      non-empty string of class characters. */
  ghost predicate Spans(pat: Pattern, t: string, i: nat, q: nat, gs: seq<string>)
    requires i <= q <= |t|
    decreases |pat|
  {
    if pat == [] then i == q && gs == []
    else match pat[0]
      case Lit(s) =>
        i + |s| <= q && t[i..i + |s|] == s && Spans(pat[1..], t, i + |s|, q, gs)
      case Grab(cls) =>
        |gs| > 0 && |gs[0]| > 0 && i + |gs[0]| <= q && t[i..i + |gs[0]|] == gs[0] &&
        (forall k :: 0 <= k < |gs[0]| ==> InClass(cls, gs[0][k])) &&
        Spans(pat[1..], t, i + |gs[0]|, q, gs[1..])
  }

  /** Whatever the greedy matcher returns is a match. */
  lemma {:induction false} MatchSound(pat: Pattern, t: string, i: nat)
    requires i <= |t|
    requires MatchFrom(pat, t, i).Some?
    ensures Spans(pat, t, i, MatchFrom(pat, t, i).value.end, MatchFrom(pat, t, i).value.groups)
    decreases |pat|
  {
    if pat != [] {
      match pat[0]
      case Lit(s) =>
        MatchSound(pat[1..], t, i + |s|);
      case Grab(cls) =>
        var j := RunEnd(t, i, cls);
        MatchSound(pat[1..], t, j);
        var f := MatchFrom(pat[1..], t, j).value;
        var gs := [t[i..j]] + f.groups;
        assert gs[0] == t[i..j] && gs[1..] == f.groups;
    }
  }

  /** For a well-formed pattern every match is the one the greedy matcher
      finds: at a given position there is at most one match, and the
      matcher does not miss it. */
  lemma {:induction false} MatchComplete(pat: Pattern, t: string, i: nat, q: nat, gs: seq<string>)
    requires WellFormed(pat)
    requires i <= q <= |t|
    requires Spans(pat, t, i, q, gs)
    ensures MatchFrom(pat, t, i) == Some(Found(gs, q))
    decreases |pat|
  {
    if pat != [] {
      match pat[0]
      case Lit(s) =>
        MatchComplete(pat[1..], t, i + |s|, q, gs);
      case Grab(cls) =>
        var g := gs[0];
        var j := i + |g|;
        var next := pat[1];
        assert next.Lit?;
        assert t[j..j + |next.s|] == next.s;
        assert t[j] == next.s[0];
        forall k | i <= k < j ensures InClass(cls, t[k]) {
          assert t[k] == g[k - i];
        }
        RunEndUnique(t, i, j, cls);
        MatchComplete(pat[1..], t, j, q, gs[1..]);
        assert [t[i..j]] + gs[1..] == gs;
    }
  }

  /** The text of a match laid out from its pattern and groups: literals
      verbatim, groups in their places. */
  function Render(pat: Pattern, gs: seq<string>): string
    decreases |pat|
  {
    if pat == [] then ""
    else match pat[0]
      case Lit(s) => s + Render(pat[1..], gs)
      case Grab(_) => if gs == [] then "" else gs[0] + Render(pat[1..], gs[1..])
  }

  /** Rendering a literal followed by a group. */
  lemma RenderLitGrab(l: string, cls: CharClass, rest: Pattern, gs: seq<string>)
    requires |gs| > 0
    ensures Render([Lit(l), Grab(cls)] + rest, gs) == l + (gs[0] + Render(rest, gs[1..]))
  {
    var pat := [Lit(l), Grab(cls)] + rest;
    assert pat[1..] == [Grab(cls)] + rest;
    assert pat[1..][1..] == rest;
  }

  /** Rendering two literal-group pairs in front of the rest of a pattern. */
  lemma RenderTwoPairs(l0: string, c0: CharClass, l1: string, c1: CharClass, rest: Pattern, gs: seq<string>)
    requires |gs| >= 2
    ensures Render([Lit(l0), Grab(c0), Lit(l1), Grab(c1)] + rest, gs)
      == l0 + (gs[0] + (l1 + (gs[1] + Render(rest, gs[2..]))))
  {
    var tail := [Lit(l1), Grab(c1)] + rest;
    assert [Lit(l0), Grab(c0), Lit(l1), Grab(c1)] + rest == [Lit(l0), Grab(c0)] + tail;
    RenderLitGrab(l0, c0, tail, gs);
    RenderLitGrab(l1, c1, rest, gs[1..]);
    assert gs[1..][1..] == gs[2..];
  }

  lemma SliceSplit(t: string, i: nat, j: nat, q: nat)
    requires i <= j <= q <= |t|
    ensures t[i..q] == t[i..j] + t[j..q]
  {
  }

  /** A matched stretch of text is exactly the pattern rendered with its groups. */
  lemma {:induction false} SpansRender(pat: Pattern, t: string, i: nat, q: nat, gs: seq<string>)
    requires i <= q <= |t|
    requires Spans(pat, t, i, q, gs)
    ensures t[i..q] == Render(pat, gs)
    decreases |pat|
  {
    if pat != [] {
      match pat[0]
      case Lit(s) =>
        var j := i + |s|;
        SpansRender(pat[1..], t, j, q, gs);
        assert Render(pat, gs) == s + Render(pat[1..], gs);
        SliceSplit(t, i, j, q);
      case Grab(_) =>
        var j := i + |gs[0]|;
        SpansRender(pat[1..], t, j, q, gs[1..]);
        assert Render(pat, gs) == gs[0] + Render(pat[1..], gs[1..]);
        SliceSplit(t, i, j, q);
    }
  }

  /** The classes of the capture groups of a pattern, in order. */
  function GrabClasses(pat: Pattern): (cs: seq<CharClass>)
    ensures |cs| == Groups(pat)
  {
    if pat == [] then []
    else if pat[0].Grab? then [pat[0].cls] + GrabClasses(pat[1..])
    else GrabClasses(pat[1..])
  }

  /** In a match, group `n` is a non-empty string of the `n`-th group's class. */
  lemma {:induction false} SpansGroups(pat: Pattern, t: string, i: nat, q: nat, gs: seq<string>)
    requires i <= q <= |t|
    requires Spans(pat, t, i, q, gs)
    ensures |gs| == Groups(pat)
    ensures forall n :: 0 <= n < |gs| ==> |gs[n]| > 0
    ensures forall n, k :: 0 <= n < |gs| && 0 <= k < |gs[n]| ==> InClass(GrabClasses(pat)[n], gs[n][k])
    decreases |pat|
  {
    if pat != [] {
      match pat[0]
      case Lit(s) =>
        SpansGroups(pat[1..], t, i + |s|, q, gs);
      case Grab(_) =>
        SpansGroups(pat[1..], t, i + |gs[0]|, q, gs[1..]);
        assert forall n :: 1 <= n < |gs| ==> gs[n] == gs[1..][n - 1];
    }
  }

  /** `re.search(pat, t[i..])` with the match pinned to absolute positions:
      try every start from `i` to `|t|` in turn. */
  function Search(pat: Pattern, t: string, i: nat): (r: Option<Match>)
    requires i <= |t|
    ensures r.Some? ==>
      i <= r.value.start <= |t| && MatchFrom(pat, t, r.value.start) == Some(Found(r.value.groups, r.value.end))
    ensures r.Some? ==> forall j :: i <= j < r.value.start ==> MatchFrom(pat, t, j).None?
    ensures r.None? ==> forall j :: i <= j <= |t| ==> MatchFrom(pat, t, j).None?
    decreases |t| - i
  {
    match MatchFrom(pat, t, i)
    case Some(f) => Some(Match(i, f.end, f.groups))
    case None => if i == |t| then None else Search(pat, t, i + 1)
  }

  /** `Search` from the start of the text is leftmost-match semantics: what
      it returns is a match, no match starts earlier, and when it returns
      nothing the pattern matches nowhere. */
  lemma SearchLeftmost(pat: Pattern, t: string)
    requires WellFormed(pat)
    ensures Search(pat, t, 0).Some? ==>
      var m := Search(pat, t, 0).value;
      m.start <= m.end <= |t| && Spans(pat, t, m.start, m.end, m.groups)
    ensures Search(pat, t, 0).Some? ==>
      forall j, q, gs :: 0 <= j < Search(pat, t, 0).value.start && j <= q <= |t| ==> !Spans(pat, t, j, q, gs)
    ensures Search(pat, t, 0).None? ==>
      forall j, q, gs :: 0 <= j <= q <= |t| ==> !Spans(pat, t, j, q, gs)
  {
    var r := Search(pat, t, 0);
    if r.Some? {
      MatchSound(pat, t, r.value.start);
    }
    forall j, q, gs | 0 <= j <= q <= |t| && Spans(pat, t, j, q, gs)
      ensures r.Some? && r.value.start <= j
    {
      MatchComplete(pat, t, j, q, gs);
    }
  }

  /** The text a search finds is the pattern laid out with the groups. */
  lemma SearchRender(pat: Pattern, t: string)
    requires Search(pat, t, 0).Some?
    ensures var m := Search(pat, t, 0).value;
      m.start <= m.end <= |t| && t[m.start..m.end] == Render(pat, m.groups)
  {
    var m := Search(pat, t, 0).value;
    MatchSound(pat, t, m.start);
    SpansRender(pat, t, m.start, m.end, m.groups);
  }

  /** The facts a client needs about `Search` from the start of a text, all
      in one place: the match is the pattern rendered with its groups, each
      group is a non-empty string of its class, and no match starts earlier. */
  lemma SearchFacts(pat: Pattern, t: string)
    requires WellFormed(pat) && Search(pat, t, 0).Some?
    ensures var m := Search(pat, t, 0).value;
      && m.start <= m.end <= |t|
      && t[m.start..m.end] == Render(pat, m.groups)
      && |m.groups| == Groups(pat)
      && (forall n :: 0 <= n < |m.groups| ==> |m.groups[n]| > 0)
      && (forall n, k :: 0 <= n < |m.groups| && 0 <= k < |m.groups[n]| ==>
            InClass(GrabClasses(pat)[n], m.groups[n][k]))
      && (forall j, q, gs :: 0 <= j < m.start && j <= q <= |t| ==> !Spans(pat, t, j, q, gs))
  {
    SearchLeftmost(pat, t);
    var m := Search(pat, t, 0).value;
    SpansRender(pat, t, m.start, m.end, m.groups);
    SpansGroups(pat, t, m.start, m.end, m.groups);
  }
}
