/** The serialiser `convert_to_markdown`: a Hexo front-matter header followed by
    the in-order emissions of the blocks.  `md` stands for markdownify's `md`,
    which the model leaves uninterpreted. */
module Markdown {
  import opened Wrappers
  import opened Blocks
  import Paths
  import Strings

  /** A request to fetch `url` into the file `path`: what `download_image` does. */
  datatype Download = Download(url: string, path: string)

  const ImageExtension := ".jpg"

  /** The value rendered by an f-string for an optional path: Python prints `None`. */
  function PathText(p: Option<string>): string
  {
    match p
    case None => "None"
    case Some(s) => s
  }

  /** The lines of the fixed front-matter header, ending with the blank line after
      the closing `---`; one index-image value fills both image fields. */
  function FrontMatter(title: string, date: string, tags: string, categories: string,
                       indexImage: Option<string>): seq<string>
  {
    ["---", "title: " + title, "date: " + date, "tags: [" + tags + "]", "categories: " + categories,
     "index_img: " + PathText(indexImage), "banner_img: " + PathText(indexImage), "---", ""]
  }

  /** The header text: the front-matter lines, each ended by a line break. */
  function Header(title: string, date: string, tags: string, categories: string, indexImage: Option<string>): string
  {
    Strings.Terminated(FrontMatter(title, date, tags, categories, indexImage), "\n")
  }

  /** One span of a paragraph: a link when the span has an `href`, otherwise `md` of its content. */
  function SpanText(md: string -> string, s: Span): string
  {
    match s.href
    case Some(h) => "[" + s.content + "](" + h + ")"
    case None => md(s.content)
  }

  /** The spans of a paragraph, rendered in order with nothing between them. */
  function SpansText(md: string -> string, spans: seq<Span>): string
    decreases |spans|
  {
    if spans == [] then "" else SpanText(md, spans[0]) + SpansText(md, spans[1..])
  }

  /** The URL an image block is fetched from: `external` first, then `file`. */
  function ImageSource(b: Block): (r: Option<string>)
    requires b.Image?
    ensures r.Some? <==> b.external.Some? || b.file.Some?
    ensures b.external.Some? ==> r == b.external
    ensures b.external.None? ==> r == b.file
  {
    if b.external.Some? then b.external else b.file
  }

  /** `download_image`'s result, without the I/O: the path it writes, `join(dir, name)`. */
  function DownloadImage(url: string, name: string, dir: string): string
  {
    Paths.Join(dir, name)
  }

  /** The download an image block triggers, if any. */
  function Fetch(b: Block, postDir: string): (r: Option<Download>)
    ensures r.Some? <==> b.Image? && ImageSource(b).Some?
    ensures r.Some? ==> r.value.url == ImageSource(b).value
    ensures r.Some? ==> r.value.path == Paths.Join(postDir, b.id + ImageExtension)
  {
    if b.Image? && ImageSource(b).Some? then
      var url := ImageSource(b).value;
      Some(Download(url, DownloadImage(url, b.id + ImageExtension, postDir)))
    else None
  }

  /** Blocks that add nothing to the output. */
  predicate Silent(b: Block)
  {
    b.Other? || (HasText(b) && b.spans == []) || (b.Image? && ImageSource(b).None?)
  }

  /** A piece of text closed by a blank line, as every non-silent block is. */
  function Closed(text: string): (r: string)
    ensures |r| >= 2 && r[|r| - 2..] == "\n\n"
  {
    text + "\n\n"
  }

  /** What one block appends to the document. */
  function Emission(md: string -> string, b: Block, postDir: string): string
  {
    match b
    case Paragraph(spans) =>
      if spans == [] then "" else Closed(SpansText(md, spans))
    case Heading2(spans) =>
      if spans == [] then "" else Closed("## " + md(spans[0].content))
    case Heading3(spans) =>
      if spans == [] then "" else Closed("### " + md(spans[0].content))
    case Bulleted(spans) =>
      if spans == [] then "" else Closed("- " + md(spans[0].content))
    case Image(id, _, _) =>
      (match ImageSource(b)
       case None => ""
       case Some(url) => Closed("![Image](" + Paths.Basename(DownloadImage(url, id + ImageExtension, postDir)) + ")"))
    case Other(_) => ""
  }

  /** A block emits nothing exactly when it is silent, and otherwise text ending in a blank line. */
  lemma EmissionShape(md: string -> string, b: Block, postDir: string)
    ensures var r := Emission(md, b, postDir);
      && (r == "" <==> Silent(b))
      && (r != "" ==> |r| >= 2 && r[|r| - 2..] == "\n\n")
  {
  }

  /** The body: every block's emission, in order, with no separator added. */
  function Body(md: string -> string, blocks: seq<Block>, postDir: string): string
    decreases |blocks|
  {
    if blocks == [] then "" else Emission(md, blocks[0], postDir) + Body(md, blocks[1..], postDir)
  }

  /** The downloads the blocks trigger, in block order. */
  function Fetches(blocks: seq<Block>, postDir: string): seq<Download>
    decreases |blocks|
  {
    if blocks == [] then []
    else
      (match Fetch(blocks[0], postDir) case None => [] case Some(d) => [d])
      + Fetches(blocks[1..], postDir)
  }

  /** The whole post `convert_to_markdown` returns. */
  function Render(md: string -> string, title: string, date: string, tags: string, categories: string,
                  indexImage: Option<string>, blocks: seq<Block>, postDir: string): string
  {
    Header(title, date, tags, categories, indexImage) + Body(md, blocks, postDir)
  }

  /** The blocks that contribute text: exactly the input's non-silent blocks. */
  function Contributing(blocks: seq<Block>): (r: seq<Block>)
    ensures |r| <= |blocks|
    ensures forall k :: 0 <= k < |r| ==> !Silent(r[k])
    ensures forall b :: b in r <==> b in blocks && !Silent(b)
    decreases |blocks|
  {
    if blocks == [] then []
    else (if Silent(blocks[0]) then [] else [blocks[0]]) + Contributing(blocks[1..])
  }

  /** The inner loop of `convert_to_markdown` over a paragraph's `rich_text`. */
  method AppendSpans(md: string -> string, markdown: string, spans: seq<Span>) returns (result: string)
    ensures result == markdown + SpansText(md, spans)
  {
    result := markdown;
    for j := 0 to |spans|
      invariant result == markdown + SpansText(md, spans[..j])
    {
      SpansSnoc(md, spans, j);
      var text := spans[j];
      if text.href.Some? {
        result := result + ("[" + text.content + "](" + text.href.value + ")");
      } else {
        result := result + md(text.content);
      }
      Strings.Associative(markdown, SpansText(md, spans[..j]), SpanText(md, text));
    }
    assert spans[..|spans|] == spans;
  }

  /** `convert_to_markdown`: build the header, then append each block's text in a loop. */
  method ConvertToMarkdown(md: string -> string, title: string, date: string, tags: string, categories: string,
                           indexImage: Option<string>, blocks: seq<Block>, postDir: string)
    returns (markdown: string, downloads: seq<Download>)
    ensures markdown == Header(title, date, tags, categories, indexImage) + Body(md, blocks, postDir)
    ensures downloads == Fetches(blocks, postDir)
  {
    var header := Header(title, date, tags, categories, indexImage);
    markdown := header;
    downloads := [];
    assert blocks[..0] == [];
    for i := 0 to |blocks|
      invariant markdown == header + Body(md, blocks[..i], postDir)
      invariant downloads == Fetches(blocks[..i], postDir)
    {
      var block := blocks[i];
      BodySnoc(md, blocks, i, postDir);
      FetchesSnoc(blocks, i, postDir);
      ghost var before := markdown;
      match block {
        case Paragraph(spans) =>
          if spans != [] {
            markdown := AppendSpans(md, markdown, spans);
            markdown := markdown + "\n\n";
            Strings.Associative(before, SpansText(md, spans), "\n\n");
          }
        case Heading2(spans) =>
          if spans != [] {
            markdown := markdown + ("## " + md(spans[0].content) + "\n\n");
          }
        case Heading3(spans) =>
          if spans != [] {
            markdown := markdown + ("### " + md(spans[0].content) + "\n\n");
          }
        case Bulleted(spans) =>
          if spans != [] {
            markdown := markdown + ("- " + md(spans[0].content) + "\n\n");
          }
        case Image(id, external, file) =>
          var imageUrl: string;
          if external.Some? {
            imageUrl := external.value;
          } else if file.Some? {
            imageUrl := file.value;
          } else {
            EmissionShape(md, block, postDir);
            continue;
          }
          var imageName := id + ImageExtension;
          var imagePath := DownloadImage(imageUrl, imageName, postDir);
          assert Fetch(block, postDir) == Some(Download(imageUrl, imagePath));
          downloads := downloads + [Download(imageUrl, imagePath)];
          markdown := markdown + ("![Image](" + Paths.Basename(imagePath) + ")" + "\n\n");
        case Other(_) =>
      }
      assert markdown == before + Emission(md, block, postDir);
      Strings.Associative(header, Body(md, blocks[..i], postDir), Emission(md, block, postDir));
    }
    assert blocks[..|blocks|] == blocks;
  }

  lemma {:induction false} SpansConcat(md: string -> string, a: seq<Span>, b: seq<Span>)
    ensures SpansText(md, a + b) == SpansText(md, a) + SpansText(md, b)
    decreases |a|
  {
    if a != [] {
      assert (a + b)[1..] == a[1..] + b;
      SpansConcat(md, a[1..], b);
    } else {
      assert a + b == b;
    }
  }

  lemma SpansSnoc(md: string -> string, spans: seq<Span>, j: nat)
    requires j < |spans|
    ensures SpansText(md, spans[..j + 1]) == SpansText(md, spans[..j]) + SpanText(md, spans[j])
  {
    assert spans[..j + 1] == spans[..j] + [spans[j]];
    SpansConcat(md, spans[..j], [spans[j]]);
  }

  lemma {:induction false} BodyConcat(md: string -> string, a: seq<Block>, b: seq<Block>, postDir: string)
    ensures Body(md, a + b, postDir) == Body(md, a, postDir) + Body(md, b, postDir)
    decreases |a|
  {
    if a != [] {
      assert (a + b)[1..] == a[1..] + b;
      BodyConcat(md, a[1..], b, postDir);
    } else {
      assert a + b == b;
    }
  }

  lemma BodySnoc(md: string -> string, blocks: seq<Block>, i: nat, postDir: string)
    requires i < |blocks|
    ensures Body(md, blocks[..i + 1], postDir) == Body(md, blocks[..i], postDir) + Emission(md, blocks[i], postDir)
  {
    assert blocks[..i + 1] == blocks[..i] + [blocks[i]];
    BodyConcat(md, blocks[..i], [blocks[i]], postDir);
  }

  lemma {:induction false} FetchesConcat(a: seq<Block>, b: seq<Block>, postDir: string)
    ensures Fetches(a + b, postDir) == Fetches(a, postDir) + Fetches(b, postDir)
    decreases |a|
  {
    if a != [] {
      assert (a + b)[1..] == a[1..] + b;
      FetchesConcat(a[1..], b, postDir);
    } else {
      assert a + b == b;
    }
  }

  lemma FetchesSnoc(blocks: seq<Block>, i: nat, postDir: string)
    requires i < |blocks|
    ensures Fetches(blocks[..i + 1], postDir) == Fetches(blocks[..i], postDir)
      + (match Fetch(blocks[i], postDir) case None => [] case Some(d) => [d])
  {
    assert blocks[..i + 1] == blocks[..i] + [blocks[i]];
    FetchesConcat(blocks[..i], [blocks[i]], postDir);
  }

  /** Rendering `a + b` is the header, then the body of `a`, then the body of `b`. */
  lemma RenderConcat(md: string -> string, title: string, date: string, tags: string, categories: string,
                     indexImage: Option<string>, a: seq<Block>, b: seq<Block>, postDir: string)
    ensures Render(md, title, date, tags, categories, indexImage, a + b, postDir)
         == Header(title, date, tags, categories, indexImage) + Body(md, a, postDir) + Body(md, b, postDir)
  {
    BodyConcat(md, a, b, postDir);
  }

  /** Dropping the silent blocks leaves the body unchanged. */
  lemma {:induction false} BodyIgnoresSilent(md: string -> string, blocks: seq<Block>, postDir: string)
    ensures Body(md, Contributing(blocks), postDir) == Body(md, blocks, postDir)
    decreases |blocks|
  {
    if blocks != [] {
      var head := if Silent(blocks[0]) then [] else [blocks[0]];
      BodyConcat(md, head, Contributing(blocks[1..]), postDir);
      BodyIgnoresSilent(md, blocks[1..], postDir);
      EmissionShape(md, blocks[0], postDir);
      if !Silent(blocks[0]) {
        assert Body(md, head, postDir) == Emission(md, blocks[0], postDir) + Body(md, [], postDir);
      }
    }
  }

  /** Headings and bullets use only the first span's content: later spans, and the
      first span's link, do not change their text. */
  lemma TitledBlocksUseFirstContent(md: string -> string, s1: seq<Span>, s2: seq<Span>, postDir: string)
    requires s1 != [] && s2 != [] && s1[0].content == s2[0].content
    ensures Emission(md, Heading2(s1), postDir) == Emission(md, Heading2(s2), postDir)
    ensures Emission(md, Heading3(s1), postDir) == Emission(md, Heading3(s2), postDir)
    ensures Emission(md, Bulleted(s1), postDir) == Emission(md, Bulleted(s2), postDir)
  {
  }

  /** A paragraph is the concatenation of its spans, then one blank line: joining
      two span lists renders the first list's text directly followed by the second's. */
  lemma ParagraphSplit(md: string -> string, a: seq<Span>, b: seq<Span>, postDir: string)
    requires b != []
    ensures Emission(md, Paragraph(a + b), postDir) == SpansText(md, a) + Emission(md, Paragraph(b), postDir)
  {
    SpansConcat(md, a, b);
    Strings.Associative(SpansText(md, a), SpansText(md, b), "\n\n");
  }

  /** An image with a source, whose id holds no `/`, emits exactly `![Image](<id>.jpg)` and a blank line,
      and the file it references is the one its download writes. */
  lemma ImageEmission(md: string -> string, b: Block, postDir: string)
    requires b.Image? && ImageSource(b).Some? && '/' !in b.id
    ensures Emission(md, b, postDir) == "![Image](" + b.id + ImageExtension + ")\n\n"
    ensures Paths.Basename(Fetch(b, postDir).value.path) == b.id + ImageExtension
  {
    var name := b.id + ImageExtension;
    assert '/' !in name by {
      assert name == b.id + ['.', 'j', 'p', 'g'];
    }
    var d := Fetch(b, postDir).value;
    Paths.BasenameOfJoin(postDir, name);
    assert Emission(md, b, postDir) == Closed("![Image](" + name + ")");
  }

  /** The header splits into exactly the front-matter lines, whatever body follows,
      when none of the field values contains a line break. */
  lemma HeaderLines(title: string, date: string, tags: string, categories: string,
                    indexImage: Option<string>, body: string)
    requires '\n' !in title && '\n' !in date && '\n' !in tags && '\n' !in categories
    requires '\n' !in PathText(indexImage)
    ensures
      var i := PathText(indexImage);
      Strings.Split(Header(title, date, tags, categories, indexImage) + body, "\n")
      == ["---", "title: " + title, "date: " + date, "tags: [" + tags + "]", "categories: " + categories,
          "index_img: " + i, "banner_img: " + i, "---", ""] + Strings.Split(body, "\n")
  {
    var ls := FrontMatter(title, date, tags, categories, indexImage);
    forall k | 0 <= k < |ls| ensures "\n"[0] !in ls[k] {
    }
    Strings.SplitTerminated(ls, "\n", body);
  }

  /** A block's text closed by a blank line splits into its line and an empty line. */
  lemma SplitClosed(text: string, rest: string)
    requires '\n' !in text
    ensures Strings.Split(Closed(text) + rest, "\n") == [text, ""] + Strings.Split(rest, "\n")
  {
    assert Closed(text) + rest == text + "\n" + ("" + "\n" + rest);
    Strings.SplitPrefix(text, "\n", "" + "\n" + rest);
    Strings.SplitPrefix("", "\n", rest);
  }
}
