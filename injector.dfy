/** What `finalize` of the Tufte filter computes from the conference
    record: the metadata fields it sets, the content of the margin note,
    and where in the document the note is attached. */
module Injector {
  import opened Wrappers
  import opened Pandoc

  /** `CONFERENCE_INFO.get(key)` is truthy: present and non-empty. */
  predicate Present(info: map<string, string>, key: string)
  {
    key in info && info[key] != ""
  }

  /** The venue line: the full citation, else the book title. */
  function ConferenceLine(info: map<string, string>): Option<string>
  {
    if Present(info, "full_citation") then Some(info["full_citation"])
    else if Present(info, "book_title") then Some(info["book_title"])
    else None
  }

  /** The metadata after `finalize`: `conference` from the venue line,
      `doi` and `conference_year` from their fields, each only when present. */
  function FinalMetadata(meta: map<string, MetaValue>, info: map<string, string>): map<string, MetaValue>
  {
    var m1 := match ConferenceLine(info)
      case Some(line) => meta["conference" := MetaString(line)]
      case None => meta;
    var m2 := if Present(info, "doi") then m1["doi" := MetaString(info["doi"])] else m1;
    if Present(info, "year") then m2["conference_year" := MetaString(info["year"])] else m2
  }

  const DoiResolver := "https://doi.org/"

  /** The inlines of the margin note: the venue line and two line breaks,
      then "DOI: ", a link to the DOI and a line break. */
  function MarginContent(info: map<string, string>): seq<Inline>
  {
    (match ConferenceLine(info)
     case Some(line) => [Str(line), LineBreak, LineBreak]
     case None => [])
    + (if Present(info, "doi")
       then [Str("DOI: "), Link([Str(info["doi"])], DoiResolver + info["doi"]), LineBreak]
       else [])
  }

  /** The margin note itself, when it has any content: a note is produced
      exactly when there is a venue line or a DOI, so a record holding only
      the year or the copyright year attaches nothing. */
  function MarginNote(info: map<string, string>): (r: Option<Inline>)
    ensures r.Some? <==> ConferenceLine(info).Some? || Present(info, "doi")
    ensures r.Some? ==> r.value == Span(["marginnote"], MarginContent(info))
  {
    if info != map[] && MarginContent(info) != [] then Some(Span(["marginnote"], MarginContent(info))) else None
  }

  /** A `Div` carrying the `teaserfigure` class. */
  predicate IsTeaser(b: Block)
  {
    b.Div? && "teaserfigure" in b.classes
  }

  /** The index of the first teaser `Div`. */
  function FirstTeaser(bs: seq<Block>): (r: Option<nat>)
    ensures r.Some? ==> r.value < |bs| && IsTeaser(bs[r.value])
    ensures r.Some? ==> forall k :: 0 <= k < r.value ==> !IsTeaser(bs[k])
    ensures r.None? ==> forall k :: 0 <= k < |bs| ==> !IsTeaser(bs[k])
  {
    if bs == [] then None
    else if IsTeaser(bs[0]) then Some(0)
    else match FirstTeaser(bs[1..])
      case None => None
      case Some(i) => Some(i + 1)
  }

  /** The index of the first `Para`. */
  function FirstPara(bs: seq<Block>): (r: Option<nat>)
    ensures r.Some? ==> r.value < |bs| && bs[r.value].Para?
    ensures r.Some? ==> forall k :: 0 <= k < r.value ==> !bs[k].Para?
    ensures r.None? ==> forall k :: 0 <= k < |bs| ==> !bs[k].Para?
  {
    if bs == [] then None
    else if bs[0].Para? then Some(0)
    else match FirstPara(bs[1..])
      case None => None
      case Some(i) => Some(i + 1)
  }

  /** The note put first in a paragraph. */
  function Prepend(note: Inline, p: Block): Block
    requires p.Para?
  {
    Para([note] + p.content)
  }

  /** The blocks of the teaser `Div` with the note attached: in its first
      paragraph, or in a new paragraph placed first. */
  function IntoTeaser(bs: seq<Block>, note: Inline): seq<Block>
  {
    match FirstPara(bs)
    case Some(j) => bs[j := Prepend(note, bs[j])]
    case None => [Para([note])] + bs
  }

  /** The attachment rule of `finalize`: inside the first teaser `Div` when
      there is one, else in the first top-level paragraph, else nowhere. */
  function Attach(bs: seq<Block>, note: Inline): seq<Block>
  {
    match FirstTeaser(bs)
    case Some(i) => bs[i := Div(bs[i].classes, IntoTeaser(bs[i].blocks, note))]
    case None =>
      match FirstPara(bs)
      case Some(j) => bs[j := Prepend(note, bs[j])]
      case None => bs
  }

  /** The document blocks after `finalize`. */
  function Finalized(bs: seq<Block>, info: map<string, string>): seq<Block>
  {
    match MarginNote(info)
    case None => bs
    case Some(note) => Attach(bs, note)
  }

  /** `finalize` writes `conference` from the venue line, preferring the
      full citation, and `doi` and `conference_year` from their fields, each
      only when its source is present; every other key is left alone. */
  lemma MetadataWrites(meta: map<string, MetaValue>, info: map<string, string>)
    ensures var m := FinalMetadata(meta, info);
      && (Present(info, "full_citation") ==> "conference" in m && m["conference"] == MetaString(info["full_citation"]))
      && (!Present(info, "full_citation") && Present(info, "book_title") ==>
            "conference" in m && m["conference"] == MetaString(info["book_title"]))
      && (!Present(info, "full_citation") && !Present(info, "book_title") ==>
            ("conference" in m <==> "conference" in meta) && ("conference" in meta ==> m["conference"] == meta["conference"]))
      && (Present(info, "doi") ==> "doi" in m && m["doi"] == MetaString(info["doi"]))
      && (!Present(info, "doi") ==> ("doi" in m <==> "doi" in meta) && ("doi" in meta ==> m["doi"] == meta["doi"]))
      && (Present(info, "year") ==> "conference_year" in m && m["conference_year"] == MetaString(info["year"]))
      && (!Present(info, "year") ==>
            ("conference_year" in m <==> "conference_year" in meta)
            && ("conference_year" in meta ==> m["conference_year"] == meta["conference_year"]))
  {
  }

  lemma MetadataFrame(meta: map<string, MetaValue>, info: map<string, string>)
    ensures var m := FinalMetadata(meta, info);
      forall k :: k != "conference" && k != "doi" && k != "conference_year" ==>
        (k in m <==> k in meta) && (k in meta ==> m[k] == meta[k])
  {
  }

  /** A record holding only the year or the copyright year attaches nothing. */
  lemma YearOnlyAttachesNothing(info: map<string, string>, bs: seq<Block>)
    requires forall k :: k in info ==> k == "year" || k == "copyright_year"
    ensures MarginNote(info).None? && Finalized(bs, info) == bs
  {
  }

  /** Scenario: a DOI alone gives "DOI: ", a link labelled with the DOI to
      its resolver address, and a line break. */
  lemma DoiNote()
    ensures MarginContent(map["doi" := "10.1145/xyz"]) ==
      [Str("DOI: "), Link([Str("10.1145/xyz")], "https://doi.org/10.1145/xyz"), LineBreak]
  {
    var info := map["doi" := "10.1145/xyz"];
    assert "full_citation" !in info && "book_title" !in info;
    assert DoiResolver + "10.1145/xyz" == "https://doi.org/10.1145/xyz";
  }

  /** The venue line always comes before the DOI part. */
  lemma MarginOrder(info: map<string, string>)
    requires ConferenceLine(info).Some? && Present(info, "doi")
    ensures MarginContent(info) ==
      [Str(ConferenceLine(info).value), LineBreak, LineBreak,
       Str("DOI: "), Link([Str(info["doi"])], DoiResolver + info["doi"]), LineBreak]
  {
  }

  /** With a teaser `Div`, only that `Div` changes: every other block,
      every top-level paragraph included, is left as it was. */
  lemma TeaserTakesPrecedence(bs: seq<Block>, note: Inline)
    requires FirstTeaser(bs).Some?
    ensures var i, r := FirstTeaser(bs).value, Attach(bs, note);
      && |r| == |bs| && (forall k :: 0 <= k < |bs| && k != i ==> r[k] == bs[k])
      && r[i] == Div(bs[i].classes, IntoTeaser(bs[i].blocks, note))
  {
  }

  /** Inside the teaser, only its first paragraph changes, or a new
      paragraph is put first when it has none. */
  lemma TeaserAnchor(ds: seq<Block>, note: Inline)
    ensures FirstPara(ds).Some? ==>
      var j, r := FirstPara(ds).value, IntoTeaser(ds, note);
      |r| == |ds| && r[j] == Para([note] + ds[j].content)
      && forall k :: 0 <= k < |ds| && k != j ==> r[k] == ds[k]
    ensures FirstPara(ds).None? ==> IntoTeaser(ds, note) == [Para([note])] + ds
  {
  }

  /** Without a teaser, only the first top-level paragraph changes; with no
      paragraph either, nothing does. */
  lemma ParagraphFallback(bs: seq<Block>, note: Inline)
    requires FirstTeaser(bs).None?
    ensures FirstPara(bs).Some? ==>
      var j, r := FirstPara(bs).value, Attach(bs, note);
      |r| == |bs| && r[j] == Para([note] + bs[j].content)
      && forall k :: 0 <= k < |bs| && k != j ==> r[k] == bs[k]
    ensures FirstPara(bs).None? ==> Attach(bs, note) == bs
  {
  }

  /** Number of times `x` occurs directly in the paragraphs of a block tree. */
  function CountInlines(xs: seq<Inline>, x: Inline): nat
  {
    if xs == [] then 0 else (if xs[0] == x then 1 else 0) + CountInlines(xs[1..], x)
  }

  function CountBlock(b: Block, x: Inline): nat
    decreases b
  {
    match b
    case Para(c) => CountInlines(c, x)
    case Div(_, bs) => CountBlocks(bs, x)
    case _ => 0
  }

  function CountBlocks(bs: seq<Block>, x: Inline): nat
    decreases bs
  {
    if bs == [] then 0 else CountBlock(bs[0], x) + CountBlocks(bs[1..], x)
  }

  /** Replacing one block changes the count by that block's difference. */
  lemma {:induction false} CountUpdate(bs: seq<Block>, i: nat, b: Block, x: Inline)
    requires i < |bs|
    ensures CountBlocks(bs[i := b], x) == CountBlocks(bs, x) - CountBlock(bs[i], x) + CountBlock(b, x)
    decreases |bs|
  {
    if i > 0 {
      CountUpdate(bs[1..], i - 1, b, x);
      assert bs[i := b][1..] == bs[1..][i - 1 := b];
    }
  }

  /** The note is attached at most once: it occurs once more in the
      document's paragraphs when there is an anchor, and no more otherwise. */
  lemma AttachOnce(bs: seq<Block>, note: Inline)
    ensures CountBlocks(Attach(bs, note), note) ==
      CountBlocks(bs, note) + (if FirstTeaser(bs).Some? || FirstPara(bs).Some? then 1 else 0)
  {
    if FirstTeaser(bs).Some? {
      var i := FirstTeaser(bs).value;
      var ds := bs[i].blocks;
      if FirstPara(ds).Some? {
        var j := FirstPara(ds).value;
        CountUpdate(ds, j, Prepend(note, ds[j]), note);
        assert ([note] + ds[j].content)[1..] == ds[j].content;
      } else {
        assert ([Para([note])] + ds)[1..] == ds;
        assert [note][1..] == [];
        assert CountInlines([note], note) == 1 + CountInlines([], note);
        assert CountBlock(Para([note]), note) == 1;
      }
      assert CountBlocks(IntoTeaser(ds, note), note) == CountBlocks(ds, note) + 1;
      CountUpdate(bs, i, Div(bs[i].classes, IntoTeaser(ds, note)), note);
    } else if FirstPara(bs).Some? {
      var j := FirstPara(bs).value;
      CountUpdate(bs, j, Prepend(note, bs[j]), note);
      assert ([note] + bs[j].content)[1..] == bs[j].content;
    }
  }
}
