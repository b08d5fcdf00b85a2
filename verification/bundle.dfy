/**
 * The offline HTML bundles: `HTMLApp.to_file`, which writes an article into
 * a zip archive named after the hash of its title unless that archive
 * already exists, `HTMLAppQA.to_file`, its question-and-answer variant
 * without the existence check, and `HTMLApp.to_node`.
 *
 * `titleHash` stands for the SHA-1 hex digest of a title, `existing` for
 * the files `file_exists` finds, and `fetch` for the outcome of fetching
 * each image. Article bodies are their sequences of images.
 *
 * The localiser is a parameter: `AsWritten` is `to_local_images` as the
 * code calls it, `Corrected` the localisation `Images.LocalizeImages`.
 */
module Bundle {
  import opened Wrappers
  import opened Images
  import OrderedMap
  import Strings
  import Tree

  /** An `HTMLApp` or `HTMLAppQA` apart from its body, which `to_file` receives separately. */
  datatype HtmlApp = HtmlApp(
    title: string,
    sourceId: string,
    lang: string,
    description: Option<string>,
    thumbnail: Option<string>,
    author: Option<string>,
    filepath: Option<string>)

  /** A freshly constructed app: no archive path yet. */
  function NewHtmlApp(title: string, sourceId: string): HtmlApp {
    HtmlApp(title, sourceId, Tree.DefaultLanguage, None, None, None, None)
  }

  /** `"{path}/{name}.zip"`, the archive path for a title whose hash is `titleHash`. */
  function BundlePath(basePath: string, titleHash: string): string {
    basePath + "/" + titleHash + ".zip"
  }

  /** The two shared files `write_css_js` copies into every archive. */
  const SupportFiles := ["css/styles.css", "js/scripts.js"]

  /** What an archive holds: the index page's images, the copied images and the support files. */
  datatype Archive = Archive(index: seq<Img>, images: ImageMap, support: seq<string>)

  /**
   * How `to_file` ends: `return True`, `return False`, falling off the end
   * (Python's `None`), or an exception escaping `write_images`.
   */
  datatype Returned = ReturnedTrue | ReturnedFalse | ReturnedNone | Raised

  /** Which image localisation a bundle is written with. */
  datatype Localisation = AsWritten | Corrected

  /** The URLs a localisation maps: every non-empty one as written, only the localisable ones corrected. */
  predicate Mapped(mode: Localisation, u: string) {
    match mode
    case AsWritten => u != ""
    case Corrected => Localizable(u)
  }

  /** The localised document and its image map. */
  function Localise(mode: Localisation, content: seq<Img>, nameOf: string -> string): (r: (seq<Img>, ImageMap))
    ensures |r.0| == |content|
    ensures NamedMap(r.1, nameOf)
    ensures forall u :: u in OrderedMap.Keys(r.1) <==> Mapped(mode, u) && Seen(content, |content|, u)
    ensures mode == AsWritten ==> forall i :: 0 <= i < |content| ==> r.0[i] == RewrittenAsWritten(content, i, nameOf)
    ensures mode == Corrected ==> forall i :: 0 <= i < |content| ==> r.0[i] == LocalizedImg(content[i], nameOf)
  {
    match mode
    case AsWritten => ToLocalImages(content, nameOf)
    case Corrected =>
      var r := LocalizeImages(content, nameOf);
      assert forall i :: 0 <= i < |content| ==> r.0[i] == LocalizedImg(content[i], nameOf);
      r
  }

  /** The app afterwards (its `filepath` set), how the call ended, and the archive written if any. */
  datatype ToFileResult = ToFileResult(app: HtmlApp, returned: Returned, archive: Option<Archive>)

  /**
   * `write_index`, `write_images`, `write_css_js` in turn. The index is
   * always written; an exception escaping `write_images` leaves the images
   * copied so far and skips the support files.
   */
  function WriteArchive(index: seq<Img>, images: ImageMap, fetch: string -> ImageFetch): (r: (Returned, Archive))
    ensures r.1.index == index
    ensures r.0 == Raised <==> WriteImages(images, fetch).raised
    ensures r.0 != Raised ==> r.0 == ReturnedNone && r.1.support == SupportFiles
    ensures forall e :: e in r.1.images ==> e in images && fetch(e.0) == Fetched
  {
    var w := WriteImages(images, fetch);
    if w.raised then (Raised, Archive(index, w.entries, [])) else (ReturnedNone, Archive(index, w.entries, SupportFiles))
  }

  /**
   * `HTMLApp.to_file`. The archive path is set first. An existing archive
   * ends the call with `True` before the body is looked at; a missing body
   * ends it with `False`; otherwise the localised body is written out.
   */
  function ToFile(app: HtmlApp, body: Option<seq<Img>>, basePath: string, titleHash: string -> string,
                  existing: set<string>, mode: Localisation, nameOf: string -> string,
                  fetch: string -> ImageFetch): (r: ToFileResult)
    ensures r.app == app.(filepath := Some(BundlePath(basePath, titleHash(app.title))))
    ensures BundlePath(basePath, titleHash(app.title)) in existing ==> r.returned == ReturnedTrue && r.archive.None?
    ensures BundlePath(basePath, titleHash(app.title)) !in existing && body.None? ==>
      r.returned == ReturnedFalse && r.archive.None?
    ensures BundlePath(basePath, titleHash(app.title)) !in existing && body.Some? ==>
      && r.archive.Some?
      && (mode == AsWritten ==> r.archive.value.index == ToLocalImages(body.value, nameOf).0)
      && (mode == Corrected ==> r.archive.value.index == LocalizeImages(body.value, nameOf).0)
      && (forall e :: e in r.archive.value.images ==> e in Localise(mode, body.value, nameOf).1)
      && (r.returned == ReturnedNone || r.returned == Raised)
  {
    var path := BundlePath(basePath, titleHash(app.title));
    var app' := app.(filepath := Some(path));
    if path in existing then
      ToFileResult(app', ReturnedTrue, None)
    else
      match body
      case None => ToFileResult(app', ReturnedFalse, None)
      case Some(content) =>
        var (doc, images) := Localise(mode, content, nameOf);
        var (returned, archive) := WriteArchive(doc, images, fetch);
        ToFileResult(app', returned, Some(archive))
  }

  /**
   * The bundle as written keeps the second of two equal image sources
   * pointing at the remote path; the corrected one points both at the file.
   */
  lemma BundleKeepsDuplicateRemote(app: HtmlApp, basePath: string, titleHash: string -> string,
                                   existing: set<string>, nameOf: string -> string, fetch: string -> ImageFetch)
    requires BundlePath(basePath, titleHash(app.title)) !in existing
    ensures var body := Some([Img(Some("/a.png")), Img(Some("/a.png"))]);
      && ToFile(app, body, basePath, titleHash, existing, AsWritten, nameOf, fetch).archive.value.index[1] == Img(Some("/a.png"))
      && ToFile(app, body, basePath, titleHash, existing, Corrected, nameOf, fetch).archive.value.index[1]
         == Img(Some(nameOf(BaseUrl + "a.png")))
  {
    var content := [Img(Some("/a.png")), Img(Some("/a.png"))];
    DuplicateKeepsRemoteSrc(nameOf);
    assert "/a.png"[..1] == "/" && "/a.png"[1] == 'a';
    assert Url(content[1]) == Some(BaseUrl + "a.png");
    assert (BaseUrl + "a.png")[0] == 'h' && DataImagePrefix[0] == 'd';
    assert Localizable(BaseUrl + "a.png");
  }

  /**
   * The existence check short-circuits everything: with the archive present,
   * the result depends neither on the body, nor on the localisation, nor on
   * any image fetch.
   */
  lemma CachedIgnoresBody(app: HtmlApp, body1: Option<seq<Img>>, body2: Option<seq<Img>>, basePath: string,
                          titleHash: string -> string, existing: set<string>, mode1: Localisation, mode2: Localisation,
                          nameOf: string -> string, fetch1: string -> ImageFetch, fetch2: string -> ImageFetch)
    requires BundlePath(basePath, titleHash(app.title)) in existing
    ensures ToFile(app, body1, basePath, titleHash, existing, mode1, nameOf, fetch1)
         == ToFile(app, body2, basePath, titleHash, existing, mode2, nameOf, fetch2)
  {
  }

  /** The articles of a question page merged into one body, in order. */
  function Concat(articles: seq<seq<Img>>): seq<Img> {
    if |articles| == 0 then [] else Concat(articles[..|articles| - 1]) + articles[|articles| - 1]
  }

  /** Some article of a question page shows the URL `u`. */
  ghost predicate SeenInAny(articles: seq<seq<Img>>, u: string) {
    exists a :: 0 <= a < |articles| && Seen(articles[a], |articles[a]|, u)
  }

  /** Splitting off the last article of a question page. */
  lemma SeenInAnySnoc(articles: seq<seq<Img>>, u: string)
    requires |articles| > 0
    ensures SeenInAny(articles, u) <==>
      SeenInAny(articles[..|articles| - 1], u) || Seen(articles[|articles| - 1], |articles[|articles| - 1]|, u)
  {
    var init := articles[..|articles| - 1];
    if SeenInAny(articles, u) {
      var a :| 0 <= a < |articles| && Seen(articles[a], |articles[a]|, u);
      if a < |init| {
        assert init[a] == articles[a];
      }
    }
    if SeenInAny(init, u) {
      var a :| 0 <= a < |init| && Seen(init[a], |init[a]|, u);
      assert articles[a] == init[a];
    }
  }

  /**
   * The image map of a question page: each article's own map merged in
   * with `dict.update`, so one entry per mapped URL of any article.
   */
  function MergedImages(articles: seq<seq<Img>>, mode: Localisation, nameOf: string -> string): (m: ImageMap)
    ensures NamedMap(m, nameOf)
    ensures forall u :: u in OrderedMap.Keys(m) <==> Mapped(mode, u) && SeenInAny(articles, u)
  {
    if |articles| == 0 then
      []
    else
      var m := MergedImages(articles[..|articles| - 1], mode, nameOf);
      var add := Localise(mode, articles[|articles| - 1], nameOf).1;
      OrderedMap.UpdateGet(m, add);
      OrderedMap.UpdateValuesFrom(m, add, nameOf);
      forall u
        ensures Mapped(mode, u) && SeenInAny(articles, u) <==> u in OrderedMap.Keys(m) || u in OrderedMap.Keys(add)
      {
        SeenInAnySnoc(articles, u);
      }
      OrderedMap.Update(m, add)
  }

  /**
   * As written, an inline image in a question page's article is mapped, and
   * the merged map keeps it even though `write_images` never copies it.
   */
  lemma QaMapsInlineImage(nameOf: string -> string)
    ensures InlineImage in OrderedMap.Keys(MergedImages([[Img(Some(InlineImage))]], AsWritten, nameOf))
    ensures InlineImage !in OrderedMap.Keys(MergedImages([[Img(Some(InlineImage))]], Corrected, nameOf))
  {
    var articles := [[Img(Some(InlineImage))]];
    assert InlineImage[0] == 'd' && !Strings.StartsWith(InlineImage, "/");
    assert Url(articles[0][0]) == Some(InlineImage);
    assert Seen(articles[0], 1, InlineImage);
    assert SeenInAny(articles, InlineImage);
    assert InlineImage[..|DataImagePrefix|] == DataImagePrefix;
  }

  /** Each article localised on its own, as the loop of `HTMLAppQA.to_file` does. */
  function LocalizeArticles(articles: seq<seq<Img>>, mode: Localisation, nameOf: string -> string): (r: seq<seq<Img>>)
    ensures |r| == |articles|
    ensures forall a :: 0 <= a < |articles| ==> |r[a]| == |articles[a]|
    ensures mode == AsWritten ==> forall a, i :: 0 <= a < |articles| && 0 <= i < |articles[a]| ==>
      r[a][i] == RewrittenAsWritten(articles[a], i, nameOf)
    ensures mode == Corrected ==> forall a, i :: 0 <= a < |articles| && 0 <= i < |articles[a]| ==>
      r[a][i] == LocalizedImg(articles[a][i], nameOf)
  {
    seq(|articles|, a requires 0 <= a < |articles| => Localise(mode, articles[a], nameOf).0)
  }

  /**
   * `HTMLAppQA.to_file`: no existence check. The archive path is set, a
   * missing body ends the call with `False`, and otherwise every article is
   * localised and the whole page written out.
   */
  function QaToFile(app: HtmlApp, body: Option<seq<seq<Img>>>, basePath: string, titleHash: string -> string,
                    mode: Localisation, nameOf: string -> string, fetch: string -> ImageFetch): (r: ToFileResult)
    ensures r.app == app.(filepath := Some(BundlePath(basePath, titleHash(app.title))))
    ensures body.None? ==> r.returned == ReturnedFalse && r.archive.None?
    ensures body.Some? ==>
      && r.archive.Some?
      && r.archive.value.index == Concat(LocalizeArticles(body.value, mode, nameOf))
      && (r.returned == ReturnedNone || r.returned == Raised)
      && forall e :: e in r.archive.value.images ==> e in MergedImages(body.value, mode, nameOf)
  {
    var path := BundlePath(basePath, titleHash(app.title));
    var app' := app.(filepath := Some(path));
    match body
    case None => ToFileResult(app', ReturnedFalse, None)
    case Some(articles) =>
      var images := MergedImages(articles, mode, nameOf);
      var (returned, archive) := WriteArchive(Concat(LocalizeArticles(articles, mode, nameOf)), images, fetch);
      ToFileResult(app', returned, Some(archive))
  }

  /**
   * Where an article app returns `True` because its archive exists, a
   * question app with a body writes the archive again.
   */
  lemma QaRewritesExisting(app: HtmlApp, body: seq<Img>, basePath: string, titleHash: string -> string,
                           mode: Localisation, nameOf: string -> string, fetch: string -> ImageFetch)
    ensures var existing := {BundlePath(basePath, titleHash(app.title))};
      && ToFile(app, Some(body), basePath, titleHash, existing, mode, nameOf, fetch).archive.None?
      && QaToFile(app, Some([body]), basePath, titleHash, mode, nameOf, fetch).archive.Some?
  {
  }

  /**
   * `HTMLApp.to_node`: a node exactly when an archive path is set, the
   * archive being the node's one HTML5 file.
   */
  function ToNode(app: HtmlApp): (r: Option<Tree.TreeNode>)
    ensures r.Some? <==> app.filepath.Some?
    ensures r.Some? ==>
      && r.value.kind == Tree.Html5Kind
      && r.value.sourceId == app.sourceId
      && r.value.title == app.title
      && r.value.author == app.author.GetOr(Tree.DefaultAuthor)
      && r.value.files == [Tree.PathFile(Tree.Html5Kind, app.filepath.value)]
      && r.value.children == []
  {
    match app.filepath
    case None => None
    case Some(path) =>
      Some(Tree.TreeNode(Tree.Html5Kind, app.sourceId, app.title, app.description, app.lang, app.thumbnail,
        app.author.GetOr(Tree.DefaultAuthor), [Tree.PathFile(Tree.Html5Kind, path)], []))
  }

  /**
   * A missing body makes `to_file` return `False`, but the archive path is
   * already set, so `to_node` still emits a node for an archive that was
   * never written.
   */
  lemma NoBodyStillEmitsNode(app: HtmlApp, basePath: string, titleHash: string -> string, existing: set<string>,
                             mode: Localisation, nameOf: string -> string, fetch: string -> ImageFetch)
    requires BundlePath(basePath, titleHash(app.title)) !in existing
    ensures var r := ToFile(app, None, basePath, titleHash, existing, mode, nameOf, fetch);
      && r.returned == ReturnedFalse
      && r.archive.None?
      && ToNode(r.app).Some?
      && ToNode(r.app).value.files == [Tree.PathFile(Tree.Html5Kind, BundlePath(basePath, titleHash(app.title)))]
  {
  }

  /**
   * An exception while copying images leaves an archive on disk, and the
   * next run takes that incomplete archive as done and returns `True`.
   */
  lemma PartialArchiveIsCached(app: HtmlApp, body: seq<Img>, basePath: string, titleHash: string -> string,
                               existing: set<string>, mode: Localisation, nameOf: string -> string,
                               fetch: string -> ImageFetch)
    requires ToFile(app, Some(body), basePath, titleHash, existing, mode, nameOf, fetch).returned == Raised
    ensures var path := BundlePath(basePath, titleHash(app.title));
      && ToFile(app, Some(body), basePath, titleHash, existing, mode, nameOf, fetch).archive.value.support == []
      && ToFile(app, Some(body), basePath, titleHash, existing + {path}, mode, nameOf, fetch).returned == ReturnedTrue
  {
  }
}
