/** The content blocks of a Notion page, as `convert_to_markdown` reads them:
    a closed set of the kinds it handles plus a variant for every other type tag. */
module Blocks {
  import opened Wrappers

  /** One `rich_text` element: its `text.content` and, when the `text` object
      carries one, its `text.href`. */
  datatype Span = Span(content: string, href: Option<string>)

  datatype Block =
    | Paragraph(spans: seq<Span>)
    | Heading2(spans: seq<Span>)
    | Heading3(spans: seq<Span>)
    | Bulleted(spans: seq<Span>)
      /** An image block: its block id and the `external.url` / `file.url` it may carry. */
    | Image(id: string, external: Option<string>, file: Option<string>)
      /** Any other type tag (heading_1, numbered lists, code, ...). */
    | Other(kind: string)

  /** The kinds whose payload is a `rich_text` list. */
  predicate HasText(b: Block)
  {
    b.Paragraph? || b.Heading2? || b.Heading3? || b.Bulleted?
  }
}
