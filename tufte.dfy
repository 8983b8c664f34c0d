/** The Tufte filter: `prepare` builds the bibliography index and scans the
    main LaTeX file for conference metadata, the traversal rewrites
    author-in-text citations and scans every raw LaTeX node, and `finalize`
    writes the metadata fields and attaches the margin note.  The two
    module-level dictionaries of the filter are the fields `bib` and `info`
    of one `TufteFilter` object. */
module Tufte {
  import opened Wrappers
  import opened Pandoc
  import opened Bibliography
  import opened Scanner
  import opened Citations
  import opened Injector

  /** The main files tried, in order, relative to the working directory. */
  const CandidateFiles: seq<string> := ["00_main.tex", "main.tex", "paper.tex"]

  /** A candidate that was read and in which the scan found something. */
  predicate Hit(content: Option<string>)
  {
    content.Some? && AnyFound(Find(content.value))
  }

  /** What the file pass writes from the `i`-th candidate on: the fields
      of the first hit, if any. */
  function PassFrom(read: string -> Option<string>, i: nat): map<string, string>
    requires i <= |CandidateFiles|
    decreases |CandidateFiles| - i
  {
    if i == |CandidateFiles| then map[]
    else if Hit(read(CandidateFiles[i])) then Writes(read(CandidateFiles[i]).value)
    else PassFrom(read, i + 1)
  }

  /** What the file pass writes. */
  function FilePassWrites(read: string -> Option<string>): map<string, string>
  {
    PassFrom(read, 0)
  }

  lemma {:induction false} PassFromHit(read: string -> Option<string>, j: nat, i: nat)
    requires j <= i < |CandidateFiles|
    requires forall k :: j <= k < i ==> !Hit(read(CandidateFiles[k]))
    requires Hit(read(CandidateFiles[i]))
    ensures PassFrom(read, j) == Writes(read(CandidateFiles[i]).value)
    decreases i - j
  {
    if j < i {
      assert !Hit(read(CandidateFiles[j]));
      PassFromHit(read, j + 1, i);
      assert PassFrom(read, j) == PassFrom(read, j + 1);
    } else {
      assert PassFrom(read, j) == Writes(read(CandidateFiles[j]).value);
    }
  }

  lemma {:induction false} PassFromNoHit(read: string -> Option<string>, j: nat)
    requires j <= |CandidateFiles|
    requires forall k :: j <= k < |CandidateFiles| ==> !Hit(read(CandidateFiles[k]))
    ensures PassFrom(read, j) == map[]
    decreases |CandidateFiles| - j
  {
    if j < |CandidateFiles| {
      assert !Hit(read(CandidateFiles[j]));
      PassFromNoHit(read, j + 1);
    }
  }

  /** The file pass writes the fields of the first candidate that is a hit ... */
  lemma FilePassFirstHit(read: string -> Option<string>, i: nat)
    requires i < |CandidateFiles|
    requires forall k :: 0 <= k < i ==> !Hit(read(CandidateFiles[k]))
    requires Hit(read(CandidateFiles[i]))
    ensures FilePassWrites(read) == Writes(read(CandidateFiles[i]).value)
  {
    PassFromHit(read, 0, i);
  }

  /** ... and nothing when no candidate is one. */
  lemma FilePassNoHit(read: string -> Option<string>)
    requires forall k :: 0 <= k < |CandidateFiles| ==> !Hit(read(CandidateFiles[k]))
    ensures FilePassWrites(read) == map[]
  {
    PassFromNoHit(read, 0);
  }

  /** The text of a raw LaTeX block or inline. */
  function RawLatex(e: Element): Option<string>
  {
    match e
    case BlockElement(RawBlock(format, text)) => if format == "latex" then Some(text) else None
    case InlineElement(RawInline(format, text)) => if format == "latex" then Some(text) else None
    case _ => None
  }

  /** What visiting one element writes into the conference record. */
  function NodeWrites(e: Element): map<string, string>
  {
    match RawLatex(e)
    case Some(text) => Writes(text)
    case None => map[]
  }

  /** The conference record after visiting `es` in document order. */
  function Absorb(info: map<string, string>, es: seq<Element>): map<string, string>
  {
    if es == [] then info else Absorb(info, es[..|es| - 1]) + NodeWrites(es[|es| - 1])
  }

  lemma {:induction false} AbsorbAppend(m: map<string, string>, a: seq<Element>, b: seq<Element>)
    ensures Absorb(m, a + b) == Absorb(Absorb(m, a), b)
    decreases |b|
  {
    if b == [] {
      assert a + b == a;
    } else {
      var b' := b[..|b| - 1];
      assert (a + b)[..|a + b| - 1] == a + b';
      assert (a + b)[|a + b| - 1] == b[|b| - 1];
      AbsorbAppend(m, a, b');
    }
  }

  /** Elements other than raw LaTeX leave the record alone, wherever they
      stand in the document. */
  lemma NonLatexIgnored(m: map<string, string>, a: seq<Element>, e: Element, b: seq<Element>)
    requires RawLatex(e).None?
    ensures Absorb(m, a + [e] + b) == Absorb(m, a + b)
  {
    AbsorbAppend(m, a + [e], b);
    AbsorbAppend(m, a, [e]);
    assert Absorb(Absorb(m, a), [e]) == Absorb(m, a) by {
      assert [e][..0] == [];
    }
    AbsorbAppend(m, a, b);
  }

  /** A key nobody after `es` writes keeps the value it had. */
  lemma {:induction false} AbsorbUntouched(m: map<string, string>, es: seq<Element>, k: string)
    requires k in m
    requires forall i :: 0 <= i < |es| ==> k !in NodeWrites(es[i])
    ensures k in Absorb(m, es) && Absorb(m, es)[k] == m[k]
    decreases |es|
  {
    if es != [] {
      var n := |es| - 1;
      AbsorbUntouched(m, es[..n], k);
    }
  }

  /** The last raw LaTeX node that writes a key decides its value, whatever
      the file pass or earlier nodes had written. */
  lemma LastNodeWins(m: map<string, string>, a: seq<Element>, e: Element, b: seq<Element>, k: string)
    requires k in NodeWrites(e)
    requires forall i :: 0 <= i < |b| ==> k !in NodeWrites(b[i])
    ensures k in Absorb(m, a + [e] + b) && Absorb(m, a + [e] + b)[k] == NodeWrites(e)[k]
  {
    AbsorbAppend(m, a + [e], b);
    var mid := Absorb(m, a + [e]);
    assert (a + [e])[..|a|] == a;
    assert mid == Absorb(m, a) + NodeWrites(e);
    AbsorbUntouched(mid, b, k);
  }

  class TufteFilter {
    /** `BIB_DATA`: citation key to display name. */
    var bib: map<string, string>
    /** `CONFERENCE_INFO`: the conference record. */
    var info: map<string, string>

    constructor ()
      ensures bib == map[] && info == map[]
    {
      bib := map[];
      info := map[];
    }

    /** `prepare`: load the bibliography named in the metadata, then run
        the file pass over the candidate main files. */
    method Prepare(doc: Document, parse: string -> ParsedFile, read: string -> Option<string>)
      modifies this
      ensures bib == Loaded(old(bib), BibFiles(GetMetadata(doc.metadata, "bibliography")), parse)
      ensures info == old(info) + FilePassWrites(read)
    {
      var meta := GetMetadata(doc.metadata, "bibliography");
      if Truthy(meta) {
        var files: seq<string>;
        match meta.value {
          case MetaString(s) => files := [s];
          case MetaList(items) => files := items;
          case MetaOther(_) => files := [];
        }
        bib := LoadFiles(bib, files, parse);
      }
      ExtractConferenceMetadata(read);
    }

    /** `extract_conference_info_from_text`: each command found overwrites
        its own fields; the result says whether any was found. */
    method ScanText(text: string) returns (found: bool)
      modifies this
      ensures info == old(info) + Writes(text)
      ensures found == AnyFound(Find(text))
      ensures bib == old(bib)
    {
      if text == [] {
        EmptyTextFindsNothing();
        return false;
      }
      var conf := ConferenceArgs(text);
      found := WriteConference(conf);
      var doi := DoiArg(text);
      var wrote := WriteKey("doi", doi);
      found := found || wrote;
      var year := YearArg(text);
      wrote := WriteKey("year", year);
      found := found || wrote;
      var copyrightYear := CopyrightYearArg(text);
      wrote := WriteKey("copyright_year", copyrightYear);
      found := found || wrote;
      var booktitle := BooktitleArg(text);
      wrote := WriteKey("book_title", booktitle);
      found := found || wrote;
      WritesInOrder(old(info), text);
    }

    /** The conference command's branch of the scan: its four arguments and
        the citation line built from them. */
    method WriteConference(conf: Option<seq<string>>) returns (wrote: bool)
      requires conf.Some? ==> |conf.value| == 4
      modifies this
      ensures info == old(info) + ConferenceMap(conf)
      ensures wrote == conf.Some?
      ensures bib == old(bib)
    {
      wrote := false;
      if conf.Some? {
        var g := conf.value;
        var record := info;
        record := record["short_name" := g[0]];
        record := record["full_name" := g[1]];
        record := record["dates" := g[2]];
        record := record["location" := g[3]];
        record := record["full_citation" := FullCitation(g[0], g[1], g[2], g[3])];
        info := record;
        wrote := true;
      }
    }

    /** A one-argument command's branch of the scan. */
    method WriteKey(key: string, arg: Option<string>) returns (wrote: bool)
      modifies this
      ensures info == old(info) + KeyWrite(key, arg)
      ensures wrote == arg.Some?
      ensures bib == old(bib)
    {
      wrote := false;
      if arg.Some? {
        info := info[key := arg.value];
        wrote := true;
      }
    }

    /** `extract_conference_metadata`: scan the candidates in order,
        skipping those that cannot be read, and stop after the first scan
        that finds something. */
    method ExtractConferenceMetadata(read: string -> Option<string>)
      modifies this
      ensures info == old(info) + FilePassWrites(read)
      ensures bib == old(bib)
    {
      var i := 0;
      while i < |CandidateFiles|
        invariant 0 <= i <= |CandidateFiles|
        invariant FilePassWrites(read) == PassFrom(read, i)
        invariant info == old(info) && bib == old(bib)
      {
        var content := read(CandidateFiles[i]);
        if content.Some? {
          var found := ScanText(content.value);
          if found {
            return;
          }
          FoundIffWrites(Find(content.value));
        }
        i := i + 1;
      }
    }

    /** `transform_elements` on one element: the citation rewrite, and a
        scan of every raw LaTeX node. */
    method TransformElements(e: Element) returns (r: Option<seq<Inline>>)
      modifies this
      ensures r == Rewrite(bib, e)
      ensures info == old(info) + NodeWrites(e)
      ensures bib == old(bib)
    {
      if e.InlineElement? && e.inline.Cite? && |e.inline.citations| > 0 {
        assert RawLatex(e).None?;
        if e.inline.citations[0].mode == AuthorInText {
          var names := AuthorNames(bib, e.inline.citations);
          return Some([Str(Text.Join(" and ", names)), Space, e.inline]);
        }
      } else if e.BlockElement? && e.block.RawBlock? && e.block.format == "latex" {
        assert RawLatex(e) == Some(e.block.text);
        var _ := ScanText(e.block.text);
      } else if e.InlineElement? && e.inline.RawInline? && e.inline.format == "latex" {
        assert RawLatex(e) == Some(e.inline.text);
        var _ := ScanText(e.inline.text);
      } else {
        assert RawLatex(e).None?;
      }
      return None;
    }

    /** The traversal, as a visit of each element in document order; the
        replacement each visit returns is collected. */
    method Walk(es: seq<Element>) returns (rs: seq<Option<seq<Inline>>>)
      modifies this
      ensures |rs| == |es| && forall k :: 0 <= k < |es| ==> rs[k] == Rewrite(bib, es[k])
      ensures info == Absorb(old(info), es)
      ensures bib == old(bib)
    {
      rs := [];
      for i := 0 to |es|
        invariant |rs| == i && forall k :: 0 <= k < i ==> rs[k] == Rewrite(bib, es[k])
        invariant info == Absorb(old(info), es[..i])
        invariant bib == old(bib)
      {
        assert es[..i + 1][..i] == es[..i];
        var r := TransformElements(es[i]);
        rs := rs + [r];
      }
      assert es[..|es|] == es;
    }

    /** `finalize`: write the metadata fields, build the margin note and
        attach it at the first anchor that exists. */
    method Finalize(doc: Document)
      modifies doc
      ensures doc.metadata == FinalMetadata(old(doc.metadata), info)
      ensures doc.content == Finalized(old(doc.content), info)
    {
      if Present(info, "full_citation") {
        doc.metadata := doc.metadata["conference" := MetaString(info["full_citation"])];
      } else if Present(info, "book_title") {
        doc.metadata := doc.metadata["conference" := MetaString(info["book_title"])];
      }
      if Present(info, "doi") {
        doc.metadata := doc.metadata["doi" := MetaString(info["doi"])];
      }
      if Present(info, "year") {
        doc.metadata := doc.metadata["conference_year" := MetaString(info["year"])];
      }

      if info != map[] {
        var margin: seq<Inline> := [];
        if Present(info, "full_citation") {
          margin := margin + [Str(info["full_citation"])];
          margin := margin + [LineBreak, LineBreak];
        } else if Present(info, "book_title") {
          margin := margin + [Str(info["book_title"])];
          margin := margin + [LineBreak, LineBreak];
        }
        if Present(info, "doi") {
          margin := margin + [Str("DOI: ")];
          margin := margin + [Link([Str(info["doi"])], DoiResolver + info["doi"])];
          margin := margin + [LineBreak];
        }
        assert margin == MarginContent(info);

        if margin != [] {
          var note := Span(["marginnote"], margin);
          doc.content := AttachNote(doc.content, note);
        }
      }
    }

    /** The attachment loops of `finalize`: the first teaser `Div` gets the
        note in its first paragraph, or in a new first paragraph; without a
        teaser the first top-level paragraph gets it. */
    static method AttachNote(blocks: seq<Block>, note: Inline) returns (r: seq<Block>)
      ensures r == Attach(blocks, note)
    {
      r := blocks;
      var attached := false;
      var i := 0;
      while i < |r|
        invariant 0 <= i <= |r| && r == blocks && !attached
        invariant forall k :: 0 <= k < i ==> !IsTeaser(blocks[k])
      {
        if IsTeaser(r[i]) {
          var inner := r[i].blocks;
          var j := 0;
          while j < |inner|
            invariant 0 <= j <= |inner| && inner == blocks[i].blocks && !attached
            invariant forall k :: 0 <= k < j ==> !inner[k].Para?
          {
            if inner[j].Para? {
              assert FirstPara(blocks[i].blocks) == Some(j);
              inner := inner[j := Para([note] + inner[j].content)];
              attached := true;
              break;
            }
            j := j + 1;
          }
          if !attached {
            assert FirstPara(blocks[i].blocks).None?;
            inner := [Para([note])] + inner;
            attached := true;
          }
          assert FirstTeaser(blocks) == Some(i);
          assert inner == IntoTeaser(blocks[i].blocks, note);
          r := r[i := Div(r[i].classes, inner)];
          break;
        }
        i := i + 1;
      }

      if !attached {
        assert FirstTeaser(blocks).None?;
        i := 0;
        while i < |r|
          invariant 0 <= i <= |r| && r == blocks && !attached
          invariant forall k :: 0 <= k < i ==> !r[k].Para?
        {
          if r[i].Para? {
            assert FirstPara(blocks) == Some(i);
            r := r[i := Para([note] + r[i].content)];
            attached := true;
            break;
          }
          i := i + 1;
        }
      }
    }
  }
}
