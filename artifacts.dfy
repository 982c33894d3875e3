/**
  Which images, tables and linked media files an article yields
  (main.py:60-89). Fetching and writing the files is not modelled; each
  operation returns what it would hand to `download_file` or write.
 */
module Artifacts {
  import opened Wrappers
  import opened Strings
  import FileNames

  /**
    The URL fetched for an image whose `src` attribute is `src`: none when
    the attribute is absent or empty, `https:` put in front of a
    protocol-relative URL, any other value (a relative path too) unchanged.
   */
  function ImageUrl(src: Option<string>): (url: Option<string>)
    ensures url.None? <==> src.None? || src.value == ""
    ensures url.Some? ==> EndsWith(url.value, src.value)
  {
    match src
    case None => None
    case Some(s) =>
      if s == "" then None
      else if StartsWith(s, "//") then Some("https:" + s)
      else Some(s)
  }

  /**
    Exactly the protocol-relative URLs are rewritten, by the `https:` prefix
    and nothing else; a rewritten URL is never rewritten again.
   */
  lemma ImageUrlRewrite(s: string)
    requires s != ""
    ensures ImageUrl(Some(s)) == Some(s) <==> !StartsWith(s, "//")
    ensures StartsWith(s, "//") ==> ImageUrl(Some(s)) == Some("https:" + s)
    ensures ImageUrl(ImageUrl(Some(s))) == ImageUrl(Some(s))
  {
    if StartsWith(s, "//") {
      var u := "https:" + s;
      assert |u| > |s|;
      assert u[..2] == "ht";
    }
  }

  lemma ImageUrlExample()
    ensures ImageUrl(Some("//upload.example/x.png")) == Some("https://upload.example/x.png")
    ensures ImageUrl(Some("/static/x.png")) == Some("/static/x.png")
    ensures ImageUrl(Some("")) == None && ImageUrl(None) == None
  {
    assert StartsWith("//upload.example/x.png", "//");
    assert "https:" + "//upload.example/x.png" == "https://upload.example/x.png";
    assert "/static/x.png"[..2][1] == 's';
  }

  /** A fetched image URL is never empty and never protocol-relative. */
  lemma ImageUrlFetchable(src: Option<string>)
    ensures ImageUrl(src).Some? ==> ImageUrl(src).value != "" && !StartsWith(ImageUrl(src).value, "//")
  {
    if src.Some? && StartsWith(src.value, "//") {
      var u := "https:" + src.value;
      assert u[..2][0] == 'h';
    }
  }

  /** What one image contributes to the fetched URLs. */
  function ImageUrlOf(src: Option<string>): seq<string> {
    match ImageUrl(src)
    case Some(u) => [u]
    case None => []
  }

  /**
    The image URLs of `srcs`, in document order, the absent and empty ones
    skipped: at most one per image.
   */
  function ImageUrls(srcs: seq<Option<string>>): (urls: seq<string>)
    ensures |urls| <= |srcs|
  {
    if srcs == [] then [] else ImageUrlOf(srcs[0]) + ImageUrls(srcs[1..])
  }

  /** No image URL is empty or protocol-relative. */
  lemma {:induction false} ImageUrlsFetchable(srcs: seq<Option<string>>)
    ensures forall u :: u in ImageUrls(srcs) ==> u != "" && !StartsWith(u, "//")
    decreases |srcs|
  {
    if srcs != [] {
      ImageUrlsFetchable(srcs[1..]);
      ImageUrlFetchable(srcs[0]);
    }
  }

  /** The image URLs of two runs of images, one after the other. */
  lemma {:induction false} ImageUrlsAppend(a: seq<Option<string>>, b: seq<Option<string>>)
    ensures ImageUrls(a + b) == ImageUrls(a) + ImageUrls(b)
    decreases |a|
  {
    if a == [] {
      assert a + b == b;
    } else {
      assert (a + b)[0] == a[0] && (a + b)[1..] == a[1..] + b;
      ImageUrlsAppend(a[1..], b);
      assert ImageUrlOf(a[0]) + (ImageUrls(a[1..]) + ImageUrls(b)) == (ImageUrlOf(a[0]) + ImageUrls(a[1..])) + ImageUrls(b);
    }
  }

  /** Taking one more image adds that image's URL, if any, at the end. */
  lemma ImageUrlsSnoc(srcs: seq<Option<string>>, i: nat)
    requires i < |srcs|
    ensures ImageUrls(srcs[..i + 1]) == ImageUrls(srcs[..i]) + ImageUrlOf(srcs[i])
  {
    assert srcs[..i + 1] == srcs[..i] + [srcs[i]];
    ImageUrlsAppend(srcs[..i], [srcs[i]]);
    assert [srcs[i]][1..] == [];
    assert ImageUrls([srcs[i]]) == ImageUrlOf(srcs[i]) + [];
  }

  /**
    `download_images`: walks the `src` attributes of the content region's
    images and collects the URLs it would fetch, in order.
   */
  method DownloadImages(srcs: seq<Option<string>>) returns (fetched: seq<string>)
    ensures fetched == ImageUrls(srcs)
    ensures forall u :: u in fetched ==> u != "" && !StartsWith(u, "//")
  {
    fetched := [];
    var i := 0;
    while i < |srcs|
      invariant 0 <= i <= |srcs|
      invariant fetched == ImageUrls(srcs[..i])
    {
      ImageUrlsSnoc(srcs, i);
      var imgUrl := srcs[i];
      if imgUrl.Some? && imgUrl.value != "" {
        var url := imgUrl.value;
        if StartsWith(url, "//") {
          url := "https:" + url;
        }
        assert ImageUrl(imgUrl) == Some(url);
        assert ImageUrls(srcs[..i + 1]) == fetched + [url];
        fetched := fetched + [url];
      } else {
        assert ImageUrl(imgUrl) == None;
        assert ImageUrls(srcs[..i + 1]) == fetched + [];
        assert fetched + [] == fetched;
      }
      i := i + 1;
    }
    assert srcs[..i] == srcs;
    ImageUrlsFetchable(srcs);
  }

  /**
    `href.lower().endswith((".pdf", ".mp3", ".ogg", ".wav", ".mp4"))`: a
    selected link ends in a dot and three more characters.
   */
  function IsMediaLink(href: string): (selected: bool)
    ensures selected ==> |href| >= 4 && href[|href| - 4] == '.'
  {
    var l := Lower(href);
    var selected := EndsWith(l, ".pdf") || EndsWith(l, ".mp3") || EndsWith(l, ".ogg") || EndsWith(l, ".wav") || EndsWith(l, ".mp4");
    assert selected ==> l[|l| - 4..][0] == l[|l| - 4];
    selected
  }

  /** The test ignores case: a link and its lower-case form are treated alike. */
  lemma MediaLinkIgnoresCase(href: string)
    ensures IsMediaLink(href) <==> IsMediaLink(Lower(href))
  {
    LowerIdempotent(href);
  }

  /**
    Any link ending in one of the extensions, in any mix of upper and lower
    case, is a media link.
   */
  lemma MediaLinkAnyCase(stem: string, ending: string)
    requires Lower(ending) in {".pdf", ".mp3", ".ogg", ".wav", ".mp4"}
    ensures IsMediaLink(stem + ending)
  {
    LowerAppend(stem, ending);
    var l := Lower(stem + ending);
    assert l[|l| - |ending|..] == Lower(ending);
  }

  /** The letter before the last in `pdf`, `mp3`, `ogg`, `wav` or `mp4`. */
  predicate MediaExtensionLetter(c: char) {
    c == 'd' || c == 'p' || c == 'g' || c == 'a'
  }

  /**
    Every media link has a dot four characters from its end, and the letter
    before its last one is, in lower case, the `d`, `p`, `g` or `a` of one of
    the five extensions.
   */
  lemma MediaLinkShape(href: string)
    ensures IsMediaLink(href) ==> |href| >= 4 && href[|href| - 4] == '.'
    ensures IsMediaLink(href) ==> MediaExtensionLetter(LowerChar(href[|href| - 2]))
  {
    var l := Lower(href);
    if |l| >= 4 {
      assert l[|l| - 4..][0] == l[|l| - 4];
      assert l[|l| - 4..][2] == l[|l| - 2];
    }
  }

  lemma MediaLinkExamples()
    ensures IsMediaLink("report.PDF") && IsMediaLink("/wiki/clip.mp4")
  {
    assert Lower(".PDF") == ".pdf";
    MediaLinkAnyCase("report", ".PDF");
    assert "report" + ".PDF" == "report.PDF";
    assert Lower(".mp4") == ".mp4";
    MediaLinkAnyCase("/wiki/clip", ".mp4");
    assert "/wiki/clip" + ".mp4" == "/wiki/clip.mp4";
  }

  /** An HTML page has no dot four characters from its end. */
  lemma NotMediaLinkHtml()
    ensures !IsMediaLink("page.html")
  {
    MediaLinkShape("page.html");
    assert "page.html"[5] == 'h';
  }

  /** An image ending in `.png` has an `n` where the extensions have `d`, `p`, `g` or `a`. */
  lemma NotMediaLinkPng()
    ensures !IsMediaLink("photo.png")
  {
    MediaLinkShape("photo.png");
    assert "photo.png"[7] == 'n';
  }

  /** The hrefs selected for download, in document order. */
  function MediaLinks(hrefs: seq<string>): (selected: seq<string>)
    ensures forall h :: h in selected ==> h in hrefs && IsMediaLink(h)
  {
    if hrefs == [] then []
    else (if IsMediaLink(hrefs[0]) then [hrefs[0]] else []) + MediaLinks(hrefs[1..])
  }

  /** No media link is missed. */
  lemma {:induction false} MediaLinksComplete(hrefs: seq<string>, h: string)
    requires h in hrefs && IsMediaLink(h)
    ensures h in MediaLinks(hrefs)
    decreases |hrefs|
  {
    if hrefs[0] != h {
      MediaLinksComplete(hrefs[1..], h);
    }
  }

  /** `resolve` applied to each link, in order. */
  function ResolveAll(resolve: string -> string, links: seq<string>): (urls: seq<string>)
    ensures |urls| == |links|
    ensures forall k :: 0 <= k < |links| ==> urls[k] == resolve(links[k])
  {
    if links == [] then [] else [resolve(links[0])] + ResolveAll(resolve, links[1..])
  }

  /** The media links of two runs of links, one after the other. */
  lemma {:induction false} MediaLinksAppend(a: seq<string>, b: seq<string>)
    ensures MediaLinks(a + b) == MediaLinks(a) + MediaLinks(b)
    decreases |a|
  {
    if a == [] {
      assert a + b == b;
    } else {
      assert (a + b)[0] == a[0] && (a + b)[1..] == a[1..] + b;
      MediaLinksAppend(a[1..], b);
      var first := if IsMediaLink(a[0]) then [a[0]] else [];
      assert first + (MediaLinks(a[1..]) + MediaLinks(b)) == (first + MediaLinks(a[1..])) + MediaLinks(b);
    }
  }

  /** Resolving one more link adds its URL at the end. */
  lemma ResolveAllSnoc(resolve: string -> string, links: seq<string>, link: string)
    ensures ResolveAll(resolve, links + [link]) == ResolveAll(resolve, links) + [resolve(link)]
  {
    var a, b := ResolveAll(resolve, links + [link]), ResolveAll(resolve, links) + [resolve(link)];
    assert forall k :: 0 <= k < |a| ==> a[k] == b[k];
  }

  /** Looking at one more link adds it at the end exactly when it is a media link. */
  lemma MediaLinksSnoc(hrefs: seq<string>, i: nat)
    requires i < |hrefs|
    ensures MediaLinks(hrefs[..i + 1]) == MediaLinks(hrefs[..i]) + (if IsMediaLink(hrefs[i]) then [hrefs[i]] else [])
  {
    assert hrefs[..i + 1] == hrefs[..i] + [hrefs[i]];
    MediaLinksAppend(hrefs[..i], [hrefs[i]]);
    assert [hrefs[i]][1..] == [];
  }

  /**
    `download_linked_files`: the URLs it would fetch, one per selected href,
    in order; `resolve` stands for `urljoin("https://en.wikipedia.org/", href)`.
   */
  method DownloadLinkedFiles(hrefs: seq<string>, resolve: string -> string) returns (fetched: seq<string>)
    ensures fetched == ResolveAll(resolve, MediaLinks(hrefs))
  {
    fetched := [];
    var i := 0;
    while i < |hrefs|
      invariant 0 <= i <= |hrefs|
      invariant fetched == ResolveAll(resolve, MediaLinks(hrefs[..i]))
    {
      MediaLinksSnoc(hrefs, i);
      var href := hrefs[i];
      if IsMediaLink(href) {
        ResolveAllSnoc(resolve, MediaLinks(hrefs[..i]), href);
        fetched := fetched + [resolve(href)];
      } else {
        assert MediaLinks(hrefs[..i + 1]) == MediaLinks(hrefs[..i]);
      }
      i := i + 1;
    }
    assert hrefs[..i] == hrefs;
  }

  /** A table as `save_tables` writes it: its rows of cell texts. */
  type Table = seq<seq<string>>

  datatype TableFile = TableFile(name: string, rows: Table)

  /**
    `save_tables`: the qualifying tables, in document order, become the
    files `table_1.csv`, `table_2.csv`, ... with their rows unchanged.
   */
  method SaveTables(tables: seq<Table>) returns (files: seq<TableFile>)
    ensures |files| == |tables|
    ensures forall k :: 0 <= k < |files| ==> files[k].rows == tables[k]
    ensures forall k :: 0 <= k < |files| ==> files[k].name == FileNames.TableFileName(k + 1)
    ensures forall j, k :: 0 <= j < k < |files| ==> files[j].name != files[k].name
  {
    files := [];
    var i := 1;
    while i <= |tables|
      invariant 1 <= i <= |tables| + 1
      invariant |files| == i - 1
      invariant forall k :: 0 <= k < |files| ==> files[k] == TableFile(FileNames.TableFileName(k + 1), tables[k])
    {
      files := files + [TableFile(FileNames.TableFileName(i), tables[i - 1])];
      i := i + 1;
    }
    TableNamesDistinct(files);
  }

  /** Files numbered 1, 2, ... in order have pairwise distinct names. */
  lemma TableNamesDistinct(files: seq<TableFile>)
    requires forall k :: 0 <= k < |files| ==> files[k].name == FileNames.TableFileName(k + 1)
    ensures forall j, k :: 0 <= j < k < |files| ==> files[j].name != files[k].name
  {
    forall j, k | 0 <= j < k < |files| ensures files[j].name != files[k].name {
      FileNames.TableFileNameInjective(j + 1, k + 1);
    }
  }
}
