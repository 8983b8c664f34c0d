/** The citation branch of `transform_elements`, which both filters share:
    an author-in-text `Cite` is replaced by the resolved author names, a
    space, and the unchanged `Cite`. */
module Citations {
  import opened Wrappers
  import opened Text
  import opened Pandoc

  /** `BIB_DATA.get(id, id)` */
  function Lookup(index: map<string, string>, id: string): string
  {
    if id in index then index[id] else id
  }

  /** The resolved name of every citation, in order. */
  function AuthorNames(index: map<string, string>, cs: seq<Citation>): (names: seq<string>)
    ensures |names| == |cs|
    ensures forall k :: 0 <= k < |cs| ==>
      (cs[k].id in index ==> names[k] == index[cs[k].id]) && (cs[k].id !in index ==> names[k] == cs[k].id)
  {
    seq(|cs|, k requires 0 <= k < |cs| => Lookup(index, cs[k].id))
  }

  /** A `Cite` with at least one citation, the first in author-in-text mode. */
  predicate IsAuthorInText(e: Element)
  {
    e.InlineElement? && e.inline.Cite? && |e.inline.citations| > 0
    && e.inline.citations[0].mode == AuthorInText
  }

  /** The replacement for one element, or `None` to leave it unchanged:
      the resolved names, a space, and the citation itself. One citation
      shows its own name; with more, the first name comes first, then
      " and " and the names of the others. */
  function Rewrite(index: map<string, string>, e: Element): (r: Option<seq<Inline>>)
    ensures r.Some? <==> IsAuthorInText(e)
    ensures r.Some? ==>
      && |r.value| == 3 && r.value[0].Str? && r.value[1] == Space && r.value[2] == e.inline
    ensures r.Some? && |e.inline.citations| == 1 ==>
      r.value[0].text == Lookup(index, e.inline.citations[0].id)
    ensures r.Some? && |e.inline.citations| >= 2 ==>
      var cs := e.inline.citations;
      r.value[0].text == Lookup(index, cs[0].id) + " and " + Join(" and ", AuthorNames(index, cs[1..]))
  {
    match e
    case InlineElement(Cite(cs, _)) =>
      if |cs| > 0 && cs[0].mode == AuthorInText
      then
        assert AuthorNames(index, cs)[1..] == AuthorNames(index, cs[1..]);
        Some([Str(Join(" and ", AuthorNames(index, cs))), Space, e.inline])
      else None
    case _ => None
  }

  /** The names follow the citations: splitting the citation list splits
      the text at one " and ". */
  lemma NamesSplit(index: map<string, string>, a: seq<Citation>, b: seq<Citation>)
    requires |a| > 0 && |b| > 0
    ensures Join(" and ", AuthorNames(index, a + b))
         == Join(" and ", AuthorNames(index, a)) + " and " + Join(" and ", AuthorNames(index, b))
  {
    assert AuthorNames(index, a + b) == AuthorNames(index, a) + AuthorNames(index, b);
    JoinAppend(" and ", AuthorNames(index, a), AuthorNames(index, b));
  }

  /** With an empty index every citation shows its raw key. */
  lemma EmptyIndexShowsKeys(e: Element)
    requires IsAuthorInText(e)
    ensures var cs := e.inline.citations;
      Rewrite(map[], e).value[0] == Str(Join(" and ", seq(|cs|, k requires 0 <= k < |cs| => cs[k].id)))
  {
    var cs := e.inline.citations;
    assert AuthorNames(map[], cs) == seq(|cs|, k requires 0 <= k < |cs| => cs[k].id);
  }
}
