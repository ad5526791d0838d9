# notion2hexo: the block-to-Markdown serialiser, in Dafny

notion2hexo publishes Notion database entries as Hexo blog posts. For each
pending entry (`main.py`) it reads the title, date, tags, categories and index
image. It downloads the index image, converts the page's content blocks
to Markdown with `convert_to_markdown`, saves `./source/_posts/<title>.md` and
sets the entry's status to `已發佈`.

This project models the part of that program that has logic:

- `Markdown.ConvertToMarkdown` is the serialiser as a loop. It writes the
  fixed front-matter header, then appends the text of every paragraph,
  `heading_2`, `heading_3`, `bulleted_list_item` and `image` block in order.
  It calls markdownify's `md` on plain text. It also lists the image
  downloads the loop asks for. It is proved equal to the pure
  specification `Markdown.Render` / `Markdown.Fetches`.
- `Metadata` holds the values `main` derives: the tags/categories field
  (joined with `", "`, or `null`), `title.replace(' ', '_')`, the
  index-image name and site path, the post image directory, and the
  Markdown file path.
- `Publish.PublishAll` is `main`'s loop over the entries. The outside world
  becomes an ordered list of effects: a download, a saved file, or a status
  update. It is proved equal to the specification `Publish.AllEffects`.
- `Strings` and `Paths` model the Python library calls the core relies on:
  `str.join`, `str.replace`, `str.split` (used only as the inverse of
  `join`), and POSIX `os.path.join` and `os.path.basename` (`posixpath`).

markdownify's `md` is a parameter `md: string -> string`. No property of it
is assumed except in `Publish.HelloWorldPost`, which takes two values of `md`
as hypotheses. `download_image` becomes the path it returns,
`os.path.join(dir, name)`, plus a recorded `Download(url, path)`. The clock is
a parameter `clock: nat -> string`. Entry `k` reads `clock(k)`, and only an
entry without a date uses it (main.py:111, `Publish.ClockReadOnlyWithoutDate`).

What `main.py` handles and what it does not:

- Only `paragraph`, `heading_2`, `heading_3`, `bulleted_list_item` and
  `image` blocks produce text. Every other block type produces nothing, and
  child blocks are never fetched.
- Every span is read through its `text` object. Annotations such as bold or
  inline code are ignored.
- Images are saved as `<block id>.jpg` whatever their format. An HTTP error
  status is not checked: the response body is written as the image.
- With no index image URL, `index_img` and `banner_img` print `None`.
- A link is recognised only when the `href` key sits inside the span's
  `text` object (`main.py:55`). `Blocks.Span.href` stands for that key.
- The tags/categories field is `null` both for an empty list and for the
  single name `null` (`Metadata.ListFieldIsNull` states exactly this).

## Model

| member | source | states |
|---|---|---|
| Markdown.ConvertToMarkdown | main.py:47-80 | The loop's result is the header followed by `Body`, the in-order concatenation of the per-block emissions. Its download list is `Fetches`, one `Download` per image block that has a source, in block order. |
| Markdown.AppendSpans | main.py:54-58 | The span loop appends exactly `SpansText`: each span in order, `[content](href)` for a span with an href, `md(content)` otherwise. |
| Markdown.HeaderLines | main.py:49 | When no field value contains a line break, the output splits into the lines `---`, `title: T`, `date: D`, `tags: [G]`, `categories: C`, `index_img: I`, `banner_img: I`, `---` and an empty line, then the body's lines. The same `I` fills both image fields, only the tags get brackets, and a missing index image prints `None`. |
| Markdown.BodyConcat | main.py:50-80 | The body of `A + B` is the body of `A` followed by the body of `B`, with nothing added between blocks. |
| Markdown.RenderConcat | main.py:49-80 | Rendering `A + B` gives the header, then body(A), then body(B). |
| Markdown.FetchesConcat | main.py:69-77 | The downloads for `A + B` are those for `A`, then those for `B`. |
| Markdown.SpansConcat | main.py:54-58 | The spans of `a + b` render as the spans of `a` followed by the spans of `b`. |
| Markdown.ParagraphSplit | main.py:52-59 | A paragraph whose spans are `a + b` (b non-empty) emits the text of `a` directly followed by the paragraph emission of `b`: one closing blank line, no separators. |
| Markdown.EmissionShape | main.py:50-79 | A block emits nothing exactly when it is an unsupported type, a text block with an empty `rich_text`, or an image with neither `external` nor `file`. Any other emission ends in a blank line. |
| Markdown.Contributing | main.py:50-79 | The contributing blocks are exactly the input's non-silent blocks: a block is kept if and only if it emits text. |
| Markdown.BodyIgnoresSilent | main.py:50-79 | Removing the blocks that emit nothing leaves the body unchanged. |
| Markdown.TitledBlocksUseFirstContent | main.py:60-68 | `heading_2`, `heading_3` and bulleted items depend only on the first span's content. Later spans and the first span's href do not change them. |
| Markdown.ImageSource | main.py:70-75 | An image has a source exactly when it has `external` or `file`, and `external` wins when both are present. |
| Markdown.Fetch | main.py:69-77 | An image block with a source requests its URL into `join(post_dir, id + ".jpg")`. Other blocks request nothing. |
| Markdown.ImageEmission | main.py:76-78 | An image with a source whose id has no `/` emits exactly `![Image](<id>.jpg)` and a blank line. The basename of its download path is `<id>.jpg`. |
| Paths.BasenameIsLastComponent | main.py:78 | `basename(p)` is the longest `/`-free suffix of `p`: it ends `p` and is either all of `p` or preceded by a `/`. |
| Paths.BasenameOfJoin | main.py:40-44 | For a name without `/`, `basename(join(dir, name)) == name`, whatever `dir` is. |
| Paths.BasenameAfterSlash | main.py:125 | After a prefix that is empty or ends in `/`, a `/`-free name is its own basename. |
| Strings.SplitJoin | main.py:112 | Splitting `", ".join(names)` at `", "` gives `names` back, in order, when the list is non-empty and no name contains `,`. |
| Strings.JoinSeparatorAfterFirst | main.py:112 | With two or more names, the separator follows the first name in the joined text. |
| Strings.ReplaceChar | main.py:128 | `replace(' ', '_')` keeps the length, turns every space into `_` and leaves every other character alone. |
| Strings.ReplaceCharIdentity | main.py:128 | Replacing leaves the text unchanged exactly when the replaced character does not occur in it. |
| Metadata.ListFieldIsNull | main.py:112-113 | The tags/categories field is `null` exactly when the list is empty or is the single name `null`. |
| Metadata.ListFieldRoundTrip | main.py:112-113 | A non-empty list of comma-free names can be read back from the field in source order. |
| Metadata.Sanitize | main.py:123 | The sanitised title has the title's length and no spaces. Each space became `_` and every other character is unchanged. |
| Metadata.IndexImagePath | main.py:121-125 | `index_img` is `None` exactly when the URL is missing or empty. Otherwise it is `/img/` + sanitised title + `_index.jpg`, with no spaces. |
| Metadata.IndexImageFetch | main.py:117-124 | The index image is downloaded exactly when the URL is present and non-empty. The request uses that URL and writes `join("./themes/fluid/source/img", <sanitised title>_index.jpg)`. |
| Metadata.IndexImageSameFile | main.py:121-125 | For every title, the file the index-image download writes and the `/img/` path in the header have the same basename. |
| Metadata.IndexImageAgrees | main.py:123-125 | For a title without `/`, that shared basename is `<sanitised title>_index.jpg`. |
| Metadata.PostDir | main.py:128 | The post image directory is `./source/_posts/` followed by the title, character by character, with each space turned into `_` and no space left. |
| Metadata.MarkdownBesidePostDir | main.py:128-133 | The saved file uses the raw title. It equals `<post image directory>.md` exactly when the title has no space. |
| Publish.PublishItem | main.py:107-137 | One entry's effects, in order: the index-image download if any, the block images' downloads, the saved post `Post(...)` at `./source/_posts/<title>.md`, then the status update to `已發佈`. |
| Publish.ClockReadOnlyWithoutDate | main.py:111 | A dated entry produces the same effects whatever the clock reads and uses its own start date. An undated entry uses the clock reading as its date. |
| Publish.PublishAll | main.py:105-138 | The loop's effects are the per-entry effects concatenated in entry order, with entry `k` reading `clock(k)` when it has no date. |
| Publish.StepsStatusAfterSave | main.py:131-137 | One entry's effects number at least two and do not start with a status update. Every status update among them sets `已發佈` and immediately follows a saved post. |
| Publish.StatusOnlyAfterSave | main.py:107-138 | Across the whole run, every status update sets `已發佈` and immediately follows a saved post. |
| Publish.StepsStatusUpdates | main.py:133-137 | One entry's effects update exactly one page's status, that entry's. |
| Publish.EveryEntryMarkedOnce | main.py:107-138 | A run in which no call raises updates the status of every entry exactly once, in entry order, and of nothing else. |
| Publish.HelloWorldPost | main.py:47-80 | Take the entry `Test` with no date, tags, categories or index image, holding the paragraph `Hello` and the heading `World`. It is saved as `./source/_posts/Test.md` and marked published. Its text is the header with the clock reading as date and `null` tags and categories, then `Hello\n\n## World\n\n`. |

## Left out

- `fetch_database_items`, `fetch_page_content` and `update_page_status` (main.py:11-35, 88-98) are Notion API calls. The model takes each entry's fields and block list as input, and records the status update as an effect. The filter value `待發佈` and the database id belong only to the query.
- The HTTP GET, `os.makedirs` and file writes (main.py:38-44, 83-85, 118, 129) are I/O. They are reduced to `Download` and `Save` effects. An HTTP error status is not checked by the source either, and the error page is saved as the image.
- Raised exceptions are not modelled. The model assumes that every call returns: each download, directory creation, file write and dictionary lookup, each status update (main.py:137) and each `print` (main.py:134, 138). In the source, nothing catches an exception, so the first one aborts `main`'s loop (main.py:107-138). Every later entry is then never saved or marked published. The failing entry is not marked published either. Its post is already saved if the exception came from main.py:134-137, for example a failed status update or a `print` that cannot encode the title, and the next run writes the file again. Examples of exceptions raised earlier are `requests.get` raising on an unreachable host or a timeout (main.py:39), and a failed write. `Publish.EveryEntryMarkedOnce` and `Publish.StatusOnlyAfterSave` are therefore statements about runs in which no call raises.
- Publish.EveryEntryMarkedOnce: holds only for runs in which no call raises (see the line above). A run the source aborts marks only the entries before the failing one.
- markdownify's `md` (main.py:3) is a foreign library. It is a parameter. Nothing about its behaviour is assumed, except that the worked example (`Publish.HelloWorldBody`, `Publish.HelloWorldText`, `Publish.HelloWorldPost`) takes `md("Hello") == "Hello"` and `md("World") == "World"` as hypotheses.
- `datetime.now()` (main.py:111) is the clock. It is supplied as `clock(k)`.
- The dict-shaped Notion JSON envelope (main.py:51-53, 110-114) is replaced by typed inputs. So are the errors that envelope can raise. An empty title list raises `IndexError` (main.py:110). An index image stored as an external file raises `KeyError` (main.py:114). A block without `rich_text`, or an image without `id`, raises `KeyError`. Well-formed Notion data raises too: a `mention` or `equation` span has no `text` key. So a paragraph holding one raises `KeyError` at main.py:55. A heading or bullet whose first span is one raises at main.py:62, 65 or 68. The run stops either way. The model's `Blocks.Span` is always a text span, so it cannot represent these spans.
- The typed input also excludes two shapes the dictionaries allow. A `text` object with `"href": null` passes the key test at main.py:55 and prints `[content](None)`, but `Span.href == None` means the key is absent. A block tagged with a handled type name is always one of the typed constructors: `Other(kind)` is meant only for the types main.py:50-79 ignores. No contract requires this, so `Other("paragraph")` is still accepted and renders nothing.
- Only the first rich-text element of the title is read (main.py:110). A Notion title split into several spans, for example one with a bold part, loses its later spans in the header, the index-image name, the post directory and the saved file name. The model's `Item.title` is that first element's content.
- The console messages (main.py:134, 138) are output only.
- `Paths` follows POSIX `posixpath`. On Windows, `os.path` is `ntpath`: its `join` inserts `\` and its `basename` also splits at `\`. That behaviour is not modelled.
- Markdown.ImageEmission: states the exact `<id>.jpg` text only for block ids without `/`. Notion block ids never contain one. For other ids the emission is still given exactly by `Emission`, through `Paths.Basename`.
- Metadata.IndexImageAgrees: the exact name `<sanitised title>_index.jpg` is stated only for titles without `/`. For every title, `Metadata.IndexImageSameFile` states that both paths end in the same file name.
