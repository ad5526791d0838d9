/** The loop of `main` over the pending entries: for each one, derive the
    metadata, fetch the index image, render the blocks, save the post and mark
    the entry published.  The outside world is reduced to the ordered list of
    effects the loop asks for; the block list of each entry stands for what
    `fetch_page_content` returned. */
module Publish {
  import opened Wrappers
  import opened Blocks
  import Strings
  import Markdown
  import Metadata

  /** The select value an entry gets once it is published. */
  const PublishedStatus := "已發佈"

  /** The already-extracted fields of one database entry and its page's blocks. */
  datatype Item = Item(id: string, title: string, date: Option<string>, tags: seq<string>,
                       categories: seq<string>, indexImageUrl: Option<string>, blocks: seq<Block>)

  /** What the loop does to the outside world, in order. */
  datatype Effect =
    | Fetch(download: Markdown.Download)
    | Save(path: string, content: string)
    | SetStatus(pageId: string, status: string)

  /** The `date` value: the entry's start date, or the clock reading `now` when it has none. */
  function DateField(date: Option<string>, now: string): string
  {
    match date
    case Some(d) => d
    case None => now
  }

  /** The clock matters only to an entry without a date: a dated entry has the same effects
      whatever the clock reads, and an undated one writes the clock reading as its date. */
  lemma ClockReadOnlyWithoutDate(md: string -> string, item: Item, now1: string, now2: string)
    ensures item.date.Some? ==> ItemEffects(md, item, now1) == ItemEffects(md, item, now2)
    ensures item.date.Some? ==> DateField(item.date, now1) == item.date.value
    ensures item.date.None? ==> DateField(item.date, now1) == now1
  {
  }

  /** The post written for `item`, with `now` as the clock reading. */
  function Post(md: string -> string, item: Item, now: string): string
  {
    Markdown.Render(md, item.title, DateField(item.date, now), Metadata.ListField(item.tags),
                    Metadata.ListField(item.categories), Metadata.IndexImagePath(item.title, item.indexImageUrl),
                    item.blocks, Metadata.PostDir(item.title))
  }

  function FetchEffects(ds: seq<Markdown.Download>): (r: seq<Effect>)
    ensures |r| == |ds| && forall k :: 0 <= k < |r| ==> r[k] == Fetch(ds[k])
  {
    seq(|ds|, k requires 0 <= k < |ds| => Fetch(ds[k]))
  }

  /** The downloads, in order, then the saved post, then the status update. */
  function Steps(index: seq<Markdown.Download>, images: seq<Markdown.Download>, path: string, content: string,
                 pageId: string): seq<Effect>
  {
    FetchEffects(index) + FetchEffects(images) + [Save(path, content), SetStatus(pageId, PublishedStatus)]
  }

  /** The index-image download of an entry, as a list of zero or one downloads. */
  function IndexFetches(item: Item): seq<Markdown.Download>
  {
    match Metadata.IndexImageFetch(item.title, item.indexImageUrl)
    case None => []
    case Some(d) => [d]
  }

  /** The effects of publishing one entry: the index-image download, the block
      images' downloads, the saved post, then the status update. */
  function ItemEffects(md: string -> string, item: Item, now: string): seq<Effect>
  {
    Steps(IndexFetches(item), Markdown.Fetches(item.blocks, Metadata.PostDir(item.title)),
          Metadata.MarkdownPath(item.title), Post(md, item, now), item.id)
  }

  /** The effects of publishing `items` in order; entry `k` reads the clock as `clock(k)`. */
  function AllEffects(md: string -> string, items: seq<Item>, clock: nat -> string): seq<Effect>
    decreases |items|
  {
    if items == [] then []
    else AllEffects(md, items[..|items| - 1], clock) + ItemEffects(md, items[|items| - 1], clock(|items| - 1))
  }

  /** The body of `main`'s loop for one entry; `now` is what `datetime.now()` returns meanwhile. */
  method PublishItem(md: string -> string, item: Item, now: string) returns (step: seq<Effect>)
    ensures step == ItemEffects(md, item, now)
  {
    var title := item.title;
    var date := DateField(item.date, now);
    var tags := Metadata.ListField(item.tags);
    var categories := Metadata.ListField(item.categories);
    step := [];
    ghost var index: seq<Markdown.Download> := [];

    var indexImagePath: Option<string> := None;
    if Metadata.HasUrl(item.indexImageUrl) {
      var indexImageName := Metadata.IndexImageName(title);
      var saved := Markdown.DownloadImage(item.indexImageUrl.value, indexImageName, Metadata.IndexImageDir);
      step := step + [Fetch(Markdown.Download(item.indexImageUrl.value, saved))];
      index := [Markdown.Download(item.indexImageUrl.value, saved)];
      indexImagePath := Some(Metadata.IndexImageSitePath + indexImageName);
    }
    assert index == IndexFetches(item) && step == FetchEffects(index);
    assert indexImagePath == Metadata.IndexImagePath(title, item.indexImageUrl);

    var postDir := Metadata.PostDir(title);
    var content, downloads := Markdown.ConvertToMarkdown(md, title, date, tags, categories, indexImagePath,
                                                         item.blocks, postDir);
    step := step + FetchEffects(downloads);
    step := step + [Save(Metadata.MarkdownPath(title), content), SetStatus(item.id, PublishedStatus)];
    assert content == Post(md, item, now);
  }

  /** The loop of `main`; `clock(k)` is what `datetime.now()` returns while entry `k` is processed. */
  method PublishAll(md: string -> string, items: seq<Item>, clock: nat -> string) returns (effects: seq<Effect>)
    ensures effects == AllEffects(md, items, clock)
  {
    effects := [];
    for i := 0 to |items|
      invariant effects == AllEffects(md, items[..i], clock)
    {
      var step := PublishItem(md, items[i], clock(i));
      effects := effects + step;
      AllEffectsSnoc(md, items, i, clock);
    }
    assert items[..|items|] == items;
  }

  lemma AllEffectsSnoc(md: string -> string, items: seq<Item>, i: nat, clock: nat -> string)
    requires i < |items|
    ensures AllEffects(md, items[..i + 1], clock) == AllEffects(md, items[..i], clock) + ItemEffects(md, items[i], clock(i))
  {
    assert items[..i + 1][..i] == items[..i];
  }

  /** Every status update sets the published value and comes right after a saved post. */
  ghost predicate StatusAfterSave(e: seq<Effect>)
  {
    forall k :: 0 <= k < |e| && e[k].SetStatus? ==> e[k].status == PublishedStatus && 0 < k && e[k - 1].Save?
  }

  lemma StepsStatusAfterSave(index: seq<Markdown.Download>, images: seq<Markdown.Download>, path: string,
                             content: string, pageId: string)
    ensures var e := Steps(index, images, path, content, pageId); |e| >= 2 && !e[0].SetStatus? && StatusAfterSave(e)
  {
  }

  /** An entry is marked published only once its post has been saved. */
  lemma {:induction false} StatusOnlyAfterSave(md: string -> string, items: seq<Item>, clock: nat -> string)
    ensures StatusAfterSave(AllEffects(md, items, clock))
    decreases |items|
  {
    if items != [] {
      var n := |items| - 1;
      var a := AllEffects(md, items[..n], clock);
      var b := ItemEffects(md, items[n], clock(n));
      StatusOnlyAfterSave(md, items[..n], clock);
      StepsStatusAfterSave(IndexFetches(items[n]), Markdown.Fetches(items[n].blocks, Metadata.PostDir(items[n].title)),
                           Metadata.MarkdownPath(items[n].title), Post(md, items[n], clock(n)), items[n].id);
      var e := a + b;
      forall k | 0 <= k < |e| && e[k].SetStatus?
        ensures e[k].status == PublishedStatus && 0 < k && e[k - 1].Save?
      {
        if k < |a| {
          assert e[k] == a[k] && e[k - 1] == a[k - 1];
        } else {
          assert e[k] == b[k - |a|];
          assert k - |a| > 0;
          assert e[k - 1] == b[k - 1 - |a|];
        }
      }
    }
  }

  /** The page ids of the status updates among `e`, in order. */
  function StatusUpdates(e: seq<Effect>): seq<string>
    decreases |e|
  {
    if e == [] then [] else (if e[0].SetStatus? then [e[0].pageId] else []) + StatusUpdates(e[1..])
  }

  function Ids(items: seq<Item>): (r: seq<string>)
    ensures |r| == |items| && forall k :: 0 <= k < |items| ==> r[k] == items[k].id
  {
    seq(|items|, k requires 0 <= k < |items| => items[k].id)
  }

  lemma IdsSnoc(items: seq<Item>)
    requires items != []
    ensures Ids(items[..|items| - 1]) + [items[|items| - 1].id] == Ids(items)
  {
  }

  lemma {:induction false} StatusUpdatesConcat(a: seq<Effect>, b: seq<Effect>)
    ensures StatusUpdates(a + b) == StatusUpdates(a) + StatusUpdates(b)
    decreases |a|
  {
    if a != [] {
      assert (a + b)[1..] == a[1..] + b;
      StatusUpdatesConcat(a[1..], b);
    } else {
      assert a + b == b;
    }
  }

  lemma {:induction false} NoStatusUpdates(e: seq<Effect>)
    requires forall k :: 0 <= k < |e| ==> e[k].Fetch?
    ensures StatusUpdates(e) == []
    decreases |e|
  {
    if e != [] {
      NoStatusUpdates(e[1..]);
    }
  }

  lemma StepsStatusUpdates(index: seq<Markdown.Download>, images: seq<Markdown.Download>, path: string,
                           content: string, pageId: string)
    ensures StatusUpdates(Steps(index, images, path, content, pageId)) == [pageId]
  {
    var tail := [Save(path, content), SetStatus(pageId, PublishedStatus)];
    NoStatusUpdates(FetchEffects(index));
    NoStatusUpdates(FetchEffects(images));
    StatusUpdatesConcat(FetchEffects(index), FetchEffects(images));
    StatusUpdatesConcat(FetchEffects(index) + FetchEffects(images), tail);
    assert StatusUpdates(tail) == [pageId] by {
      var last := [SetStatus(pageId, PublishedStatus)];
      assert tail[1..] == last && last[1..] == [];
      assert StatusUpdates(last) == [pageId] + StatusUpdates([]);
      assert StatusUpdates(tail) == [] + StatusUpdates(last);
    }
  }

  /** Every entry is marked published exactly once, in the order the entries came. */
  lemma {:induction false} EveryEntryMarkedOnce(md: string -> string, items: seq<Item>, clock: nat -> string)
    ensures StatusUpdates(AllEffects(md, items, clock)) == Ids(items)
    decreases |items|
  {
    if items != [] {
      var n := |items| - 1;
      EveryEntryMarkedOnce(md, items[..n], clock);
      StepsStatusUpdates(IndexFetches(items[n]), Markdown.Fetches(items[n].blocks, Metadata.PostDir(items[n].title)),
                         Metadata.MarkdownPath(items[n].title), Post(md, items[n], clock(n)), items[n].id);
      StatusUpdatesConcat(AllEffects(md, items[..n], clock), ItemEffects(md, items[n], clock(n)));
      IdsSnoc(items);
    }
  }

  /** The blocks of the `Test` entry below: a paragraph `Hello` and a level-2 heading `World`. */
  function HelloWorldBlocks(): seq<Block>
  {
    [Paragraph([Span("Hello", None)]), Heading2([Span("World", None)])]
  }

  lemma HelloWorldBody(md: string -> string, dir: string)
    requires md("Hello") == "Hello" && md("World") == "World"
    ensures Markdown.Body(md, HelloWorldBlocks(), dir) == Markdown.Closed("Hello") + Markdown.Closed("## World")
    ensures Markdown.Fetches(HelloWorldBlocks(), dir) == []
  {
  }

  lemma HelloWorldFrontMatter(now: string)
    ensures var i := Markdown.PathText(None);
      ["---", "title: " + "Test", "date: " + now, "tags: [" + "null" + "]", "categories: " + "null",
       "index_img: " + i, "banner_img: " + i, "---", ""]
      == ["---", "title: Test", "date: " + now, "tags: [null]", "categories: null", "index_img: None",
          "banner_img: None", "---", ""]
  {
    assert "title: " + "Test" == "title: Test";
    assert "tags: [" + "null" + "]" == "tags: [null]";
    assert "categories: " + "null" == "categories: null";
    assert "index_img: " + "None" == "index_img: None";
    assert "banner_img: " + "None" == "banner_img: None";
  }

  lemma HelloWorldLines(now: string)
    requires '\n' !in now
    ensures Strings.Split(Markdown.Header("Test", now, "null", "null", None)
                          + (Markdown.Closed("Hello") + Markdown.Closed("## World")), "\n")
         == ["---", "title: Test", "date: " + now, "tags: [null]", "categories: null", "index_img: None",
             "banner_img: None", "---", "", "Hello", "", "## World", "", ""]
  {
    var second := Markdown.Closed("## World");
    var body := Markdown.Closed("Hello") + second;
    Markdown.HeaderLines("Test", now, "null", "null", None, body);
    HelloWorldFrontMatter(now);
    assert Strings.Split(body, "\n") == ["Hello", "", "## World", "", ""] by {
      Markdown.SplitClosed("Hello", second);
      Markdown.SplitClosed("## World", "");
      assert second + "" == second;
    }
  }

  lemma HelloWorldText(md: string -> string, now: string)
    requires md("Hello") == "Hello" && md("World") == "World"
    ensures Post(md, Item("page", "Test", None, [], [], None, HelloWorldBlocks()), now)
         == Markdown.Header("Test", now, "null", "null", None) + (Markdown.Closed("Hello") + Markdown.Closed("## World"))
  {
    HelloWorldBody(md, Metadata.PostDir("Test"));
  }

  lemma HelloWorldEffects(md: string -> string, now: string)
    ensures var item := Item("page", "Test", None, [], [], None, HelloWorldBlocks());
      ItemEffects(md, item, now) == [Save("./source/_posts/Test.md", Post(md, item, now)), SetStatus("page", PublishedStatus)]
  {
    var item := Item("page", "Test", None, [], [], None, HelloWorldBlocks());
    assert IndexFetches(item) == [];
    assert Markdown.Fetches(item.blocks, Metadata.PostDir("Test")) == [] by {
      assert item.blocks[1..][1..] == [];
    }
    assert Metadata.MarkdownPath("Test") == "./source/_posts/Test.md";
  }

  /** An entry titled `Test` with no date, tags, categories or index image, holding a paragraph
      `Hello` and a level-2 heading `World`, is saved as `./source/_posts/Test.md` and marked published;
      the post is the header with the clock reading as date and `null` tags and categories, then
      `Hello`, a blank line, `## World` and a blank line. */
  lemma HelloWorldPost(md: string -> string, now: string)
    requires md("Hello") == "Hello" && md("World") == "World"
    requires '\n' !in now
    ensures
      var item := Item("page", "Test", None, [], [], None, HelloWorldBlocks());
      var post := Post(md, item, now);
      && ItemEffects(md, item, now) == [Save("./source/_posts/Test.md", post), SetStatus("page", PublishedStatus)]
      && post == Markdown.Header("Test", now, "null", "null", None) + ("Hello" + "\n\n" + "## World" + "\n\n")
      && Strings.Split(post, "\n")
         == ["---", "title: Test", "date: " + now, "tags: [null]", "categories: null", "index_img: None",
             "banner_img: None", "---", "", "Hello", "", "## World", "", ""]
  {
    HelloWorldEffects(md, now);
    HelloWorldText(md, now);
    HelloWorldLines(now);
    assert Markdown.Closed("Hello") + Markdown.Closed("## World") == "Hello" + "\n\n" + "## World" + "\n\n";
  }
}
