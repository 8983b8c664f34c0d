/** The part of Pandoc's document model (as panflute exposes it) that the
    two filters touch: citations, raw LaTeX, paragraphs, classed `Div`s and
    `Span`s, the inline nodes of the margin note, and the document with its
    metadata map.  Identifiers and key-value attributes of `Div`/`Span`, and
    every node kind the filters never inspect, are folded into `OtherInline`
    and `OtherBlock`. */
module Pandoc {
  import opened Wrappers

  datatype CitationMode = AuthorInText | SuppressAuthor | NormalCitation

  /** One key referenced by a `Cite` node, with its display mode. */
  datatype Citation = Citation(id: string, mode: CitationMode)

  datatype Inline =
    | Str(text: string)
    | Space
    | LineBreak
    | Cite(citations: seq<Citation>, content: seq<Inline>)
    | RawInline(format: string, text: string)
    | Link(content: seq<Inline>, url: string)
    | Span(classes: seq<string>, content: seq<Inline>)
    | OtherInline

  datatype Block =
    | Para(content: seq<Inline>)
    | Div(classes: seq<string>, blocks: seq<Block>)
    | RawBlock(format: string, text: string)
    | OtherBlock

  /** What the traversal hands to the filter's action: any inline or block. */
  datatype Element = InlineElement(inline: Inline) | BlockElement(block: Block)

  /** A metadata value as `get_metadata` returns it: a string, a list of
      strings, or anything else (a boolean, a map), with its Python
      truthiness. */
  datatype MetaValue = MetaString(s: string) | MetaList(items: seq<string>) | MetaOther(truthy: bool)

  /** `doc.get_metadata(key)`: the value, or nothing when the key is absent. */
  function GetMetadata(metadata: map<string, MetaValue>, key: string): Option<MetaValue>
  {
    if key in metadata then Some(metadata[key]) else None
  }

  /** Python truthiness of a `get_metadata` result. */
  predicate Truthy(v: Option<MetaValue>)
  {
    match v
    case None => false
    case Some(MetaString(s)) => s != ""
    case Some(MetaList(items)) => items != []
    case Some(MetaOther(t)) => t
  }

  /** The document the filters receive and change in place. */
  class Document {
    var metadata: map<string, MetaValue>
    var content: seq<Block>

    constructor (metadata: map<string, MetaValue>, content: seq<Block>)
      ensures this.metadata == metadata && this.content == content
    {
      this.metadata := metadata;
      this.content := content;
    }
  }
}
