/** The citet filter: the bibliography half of the Tufte filter on its own.
    `prepare` builds the index and the traversal rewrites author-in-text
    citations; nothing is scanned and there is no `finalize`. */
module Citet {
  import opened Wrappers
  import opened Pandoc
  import opened Bibliography
  import opened Citations

  class CitetFilter {
    /** `BIB_DATA`: citation key to display name. */
    var bib: map<string, string>

    constructor ()
      ensures bib == map[]
    {
      bib := map[];
    }

    /** `prepare`: nothing to do without a truthy `bibliography` entry or
        when it is neither a string nor a list; otherwise every named file
        is loaded in order. */
    method Prepare(doc: Document, parse: string -> ParsedFile)
      modifies this
      ensures bib == Loaded(old(bib), BibFiles(GetMetadata(doc.metadata, "bibliography")), parse)
    {
      var meta := GetMetadata(doc.metadata, "bibliography");
      if !Truthy(meta) {
        return;
      }
      var files: seq<string>;
      match meta.value {
        case MetaString(s) => files := [s];
        case MetaList(items) => files := items;
        case MetaOther(_) => return;
      }
      bib := LoadFiles(bib, files, parse);
    }

    /** `transform_elements`: the citation rewrite and nothing else. */
    method TransformElements(e: Element) returns (r: Option<seq<Inline>>)
      ensures r == Rewrite(bib, e)
    {
      if e.InlineElement? && e.inline.Cite? && |e.inline.citations| > 0 {
        if e.inline.citations[0].mode == AuthorInText {
          var names := AuthorNames(bib, e.inline.citations);
          return Some([Str(Text.Join(" and ", names)), Space, e.inline]);
        }
      }
      return None;
    }
  }

  /** Scenario: `bibliography: refs.bib` holding `smith2020` by Smith and
      Doe; `\citet{smith2020}` becomes "Smith and Doe", a space, and the
      citation itself. */
  lemma SmithDoeCitation(parse: string -> ParsedFile, content: seq<Inline>)
    requires parse("refs.bib") == Some([("smith2020", Entry("smith2020", Some([["Smith"], ["Doe"]]), None))])
    ensures var index := Loaded(map[], BibFiles(Some(MetaString("refs.bib"))), parse);
      var cite := Cite([Citation("smith2020", AuthorInText)], content);
      Rewrite(index, InlineElement(cite)) == Some([Str("Smith and Doe"), Space, cite])
  {
    var files := BibFiles(Some(MetaString("refs.bib")));
    assert files == ["refs.bib"];
    var entries := parse("refs.bib").value;
    LastFileWins(map[], files, parse, "smith2020", 0, 0);
    SmithAndDoe();
    var index := Loaded(map[], files, parse);
    assert index["smith2020"] == "Smith and Doe";
    var cs := [Citation("smith2020", AuthorInText)];
    assert AuthorNames(index, cs) == ["Smith and Doe"];
    assert Text.Join(" and ", ["Smith and Doe"]) == "Smith and Doe";
  }
}
