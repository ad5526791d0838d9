/** The front-matter values and file locations that `main` derives from a
    database entry before rendering it. */
module Metadata {
  import opened Wrappers
  import Strings
  import Paths
  import Markdown

  /** The marker written for an empty tag or category list. */
  const NullField := "null"
  /** Where index images are saved, and the site path they are served under. */
  const IndexImageDir := "./themes/fluid/source/img"
  const IndexImageSitePath := "/img/"
  const IndexImageSuffix := "_index.jpg"
  /** The directory holding the posts and their image directories. */
  const PostsRoot := "./source/_posts/"

  /** The `tags` and `categories` values: the names joined by `", "`, or `null` for none. */
  function ListField(names: seq<string>): string
  {
    if names == [] then NullField else Strings.Join(names, ", ")
  }

  /** The field reads `null` exactly when there are no names, or the single name is itself `null`. */
  lemma ListFieldIsNull(names: seq<string>)
    ensures ListField(names) == NullField <==> names == [] || names == [NullField]
  {
    if |names| >= 2 {
      Strings.JoinSeparatorAfterFirst(names, ", ");
      var j := ListField(names);
      assert j[|names[0]|] == ',';
      assert ',' !in NullField;
    }
  }

  /** A non-empty list of comma-free names can be read back from the field by splitting at `", "`. */
  lemma ListFieldRoundTrip(names: seq<string>)
    requires names != []
    requires forall k :: 0 <= k < |names| ==> ',' !in names[k]
    ensures Strings.Split(ListField(names), ", ") == names
  {
    Strings.SplitJoin(names, ", ");
  }

  /** `title.replace(' ', '_')`: every space becomes an underscore, nothing else changes. */
  function Sanitize(title: string): (r: string)
    ensures |r| == |title| && ' ' !in r
    ensures forall i :: 0 <= i < |title| && title[i] != ' ' ==> r[i] == title[i]
    ensures forall i :: 0 <= i < |title| && title[i] == ' ' ==> r[i] == '_'
  {
    Strings.ReplaceChar(title, ' ', '_')
  }

  /** The file name of an entry's index image. */
  function IndexImageName(title: string): string
  {
    Sanitize(title) + IndexImageSuffix
  }

  /** Python's `if index_img_url:`, false for a missing and for an empty URL. */
  predicate HasUrl(url: Option<string>)
  {
    url.Some? && url.value != ""
  }

  /** The `index_img` value: `None` without a usable URL, otherwise the site path of the saved image. */
  function IndexImagePath(title: string, url: Option<string>): (r: Option<string>)
    ensures r.Some? <==> HasUrl(url)
    ensures r.Some? ==> r.value == IndexImageSitePath + IndexImageName(title) && ' ' !in r.value
  {
    if HasUrl(url) then Some(IndexImageSitePath + IndexImageName(title)) else None
  }

  /** The index-image download `main` makes, if it makes one. */
  function IndexImageFetch(title: string, url: Option<string>): (r: Option<Markdown.Download>)
    ensures r.Some? <==> HasUrl(url)
    ensures r.Some? ==> r.value.url == url.value
    ensures r.Some? ==> r.value.path == Paths.Join(IndexImageDir, IndexImageName(title))
  {
    if HasUrl(url) then
      Some(Markdown.Download(url.value, Markdown.DownloadImage(url.value, IndexImageName(title), IndexImageDir)))
    else None
  }

  /** The directory for a post's own images. */
  function PostDir(title: string): (r: string)
    ensures |r| == |PostsRoot| + |title| && r[..|PostsRoot|] == PostsRoot
    ensures ' ' !in r[|PostsRoot|..]
    ensures forall i :: 0 <= i < |title| ==> r[|PostsRoot| + i] == (if title[i] == ' ' then '_' else title[i])
  {
    PostsRoot + Sanitize(title)
  }

  /** The Markdown file of a post, named by the raw title. */
  function MarkdownPath(title: string): string
  {
    PostsRoot + title + ".md"
  }

  /** The site path written into the header and the file the index-image download writes have
      the same basename, whatever the title. */
  lemma IndexImageSameFile(title: string, url: Option<string>)
    requires HasUrl(url)
    ensures Paths.Basename(IndexImageFetch(title, url).value.path) == Paths.Basename(IndexImagePath(title, url).value)
  {
    var name := IndexImageName(title);
    Paths.BasenameIgnoresDirectory(IndexImageSitePath, name);
    if !(|name| > 0 && name[0] == '/') {
      assert Paths.Join(IndexImageDir, name) == (IndexImageDir + "/") + name;
      Paths.BasenameIgnoresDirectory(IndexImageDir + "/", name);
    }
  }

  /** For a title without `/`, the site path written into the header names the very file the
      index-image download writes. */
  lemma IndexImageAgrees(title: string, url: Option<string>)
    requires HasUrl(url) && '/' !in title
    ensures Paths.Basename(IndexImageFetch(title, url).value.path) == IndexImageName(title)
    ensures Paths.Basename(IndexImagePath(title, url).value) == IndexImageName(title)
  {
    var name := IndexImageName(title);
    assert '/' !in name by {
      var s := Sanitize(title);
      assert forall i :: 0 <= i < |s| ==> s[i] == title[i] || s[i] == '_';
      assert forall i :: 0 <= i < |IndexImageSuffix| ==> IndexImageSuffix[i] != '/';
      assert forall i :: 0 <= i < |name| ==> name[i] != '/' by {
        forall i | 0 <= i < |name| ensures name[i] != '/' {
          if i < |s| {
            assert name[i] == s[i];
          } else {
            assert name[i] == IndexImageSuffix[i - |s|];
          }
        }
      }
    }
    Paths.BasenameOfJoin(IndexImageDir, name);
    Paths.BasenameAfterSlash(IndexImageSitePath, name);
  }

  /** The Markdown file sits beside the image directory, as `<dir>.md`, exactly when the title has no space. */
  lemma MarkdownBesidePostDir(title: string)
    ensures MarkdownPath(title) == PostDir(title) + ".md" <==> ' ' !in title
  {
    Strings.ReplaceCharIdentity(title, ' ', '_');
    if MarkdownPath(title) == PostDir(title) + ".md" {
      assert MarkdownPath(title)[|PostsRoot|..|PostsRoot| + |title|] == title;
      assert (PostDir(title) + ".md")[|PostsRoot|..|PostsRoot| + |title|] == Sanitize(title);
    }
  }
}
