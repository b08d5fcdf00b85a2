/**
 * Image localisation for the offline bundles: `HTMLApp.to_local_images`,
 * which maps each image URL of an article to a local file name and rewrites
 * `src` attributes, and `HTMLApp.write_images`, which copies the mapped
 * images into the archive.
 *
 * A document is modelled as the sequence of its `<img>` tags in document
 * order. `nameOf` stands for the helper `get_name_from_url`.
 */
module Images {
  import opened Wrappers
  import opened Strings
  import OrderedMap

  /** `BASE_URL`. */
  const BaseUrl := "https://academy.hsoub.com/"

  /** Sources with this prefix are inline images, never fetched. */
  const DataImagePrefix := "data:image/"

  /** An `<img>` tag: its `src` attribute if it has one. */
  datatype Img = Img(src: Option<string>)

  /** URL to local file name, in insertion order. */
  type ImageMap = OrderedMap.Assoc<string, string>

  /**
   * `//` followed by the end of the text or by `/`, `?` or `#`: a
   * network-path reference whose authority is empty.
   */
  predicate EmptyAuthority(src: string) {
    StartsWith(src, "//") && (|src| == 2 || src[2] in "/?#")
  }

  /**
   * `urljoin(BASE_URL, src)` for a `src` starting with `/`: a path is put
   * under the site's root; a network-path reference `//host...` keeps its
   * host and takes the base's scheme; one with an empty authority takes
   * the base's host, and its path (the base's `/` when it has none).
   */
  function JoinToBase(src: string): (r: string)
    requires StartsWith(src, "/")
    ensures StartsWith(r, "https://")
    ensures !StartsWith(src, "//") ==> r == BaseUrl + src[1..]
    ensures StartsWith(src, "//") && !EmptyAuthority(src) ==> r == "https:" + src
    ensures EmptyAuthority(src) && StartsWith(src, "///") ==> r == BaseUrl + src[3..]
    ensures EmptyAuthority(src) && !StartsWith(src, "///") ==> r == BaseUrl + src[2..]
  {
    if EmptyAuthority(src) then
      var r := BaseUrl + (if StartsWith(src, "///") then src[3..] else src[2..]);
      assert r[..8] == BaseUrl[..8] == "https://";
      r
    else if StartsWith(src, "//") then
      "https:" + src
    else
      var r := BaseUrl + src[1..];
      assert r[..8] == BaseUrl[..8] == "https://";
      r
  }

  /**
   * An empty authority is dropped: what follows it, when it is a plain
   * root path, is joined exactly as that path would be.
   */
  lemma EmptyAuthorityJoinsPath(src: string)
    requires StartsWith(src, "///") && !StartsWith(src[2..], "//")
    ensures EmptyAuthority(src)
    ensures JoinToBase(src) == JoinToBase(src[2..])
  {
    assert src[2] == '/';
    var rest := src[2..];
    assert rest[..1] == "/";
    assert rest[1..] == src[3..];
  }

  /** The URL an image is filed under: its `src`, joined to `BASE_URL` when it starts with `/`. */
  function Url(img: Img): Option<string> {
    match img.src
    case None => None
    case Some(s) => Some(if StartsWith(s, "/") then JoinToBase(s) else s)
  }

  /** Some image before position `i` is filed under `u`. */
  predicate Seen(content: seq<Img>, i: int, u: string)
    requires i <= |content|
  {
    exists j :: 0 <= j < i && Url(content[j]) == Some(u)
  }

  /** Looking one image further sees that image's URL too. */
  lemma SeenStep(content: seq<Img>, i: nat)
    requires i < |content|
    ensures forall u :: Seen(content, i + 1, u) <==> Seen(content, i, u) || Url(content[i]) == Some(u)
  {
  }

  /** What the images before the last one show, seen from the whole sequence. */
  lemma SeenInit(content: seq<Img>)
    requires |content| > 0
    ensures forall u :: Seen(content, |content|, u) <==>
      Seen(content[..|content| - 1], |content| - 1, u) || Url(content[|content| - 1]) == Some(u)
  {
    var init := content[..|content| - 1];
    SeenStep(content, |init|);
    forall u
      ensures Seen(init, |init|, u) <==> Seen(content, |init|, u)
    {
      if Seen(init, |init|, u) {
        var j :| 0 <= j < |init| && Url(init[j]) == Some(u);
        assert Url(content[j]) == Some(u);
      }
      if Seen(content, |init|, u) {
        var j :| 0 <= j < |init| && Url(content[j]) == Some(u);
        assert Url(init[j]) == Some(u);
      }
    }
  }

  /** The image at `i` has a non-empty URL that no earlier image has. */
  predicate FirstOccurrence(content: seq<Img>, i: int)
    requires 0 <= i < |content|
  {
    match Url(content[i])
    case None => false
    case Some(u) => u != "" && !Seen(content, i, u)
  }

  /** Keys distinct, each mapped to the file name of its URL. */
  ghost predicate NamedMap(m: ImageMap, nameOf: string -> string) {
    OrderedMap.DistinctKeys(m) && OrderedMap.ValuesFrom(m, nameOf)
  }

  /** Image `i` as the loop of `to_local_images` leaves it: renamed only if it is the first with its URL. */
  function RewrittenAsWritten(content: seq<Img>, i: int, nameOf: string -> string): Img
    requires 0 <= i < |content|
  {
    if FirstOccurrence(content, i) then Img(Some(nameOf(Url(content[i]).value))) else content[i]
  }

  /** The state of the loop of `to_local_images` after the first `i` images. */
  ghost predicate LoopState(content: seq<Img>, nameOf: string -> string, i: nat, doc: seq<Img>, seen: ImageMap) {
    && i <= |content| && |doc| == |content|
    && (forall k :: 0 <= k < i ==> doc[k] == RewrittenAsWritten(content, k, nameOf))
    && (forall k :: i <= k < |content| ==> doc[k] == content[k])
    && NamedMap(seen, nameOf)
    && (forall u :: u in OrderedMap.Keys(seen) <==> u != "" && Seen(content, i, u))
  }

  /**
   * The loop of `to_local_images` from image `i` on: an image without `src`
   * is skipped; one whose (joined) URL is non-empty and not yet mapped is
   * renamed and its URL mapped; any other is left as it is.
   */
  function LocalizeFrom(content: seq<Img>, nameOf: string -> string, i: nat, doc: seq<Img>, seen: ImageMap)
    : (r: (seq<Img>, ImageMap))
    requires LoopState(content, nameOf, i, doc, seen)
    ensures LoopState(content, nameOf, |content|, r.0, r.1)
    decreases |content| - i
  {
    if i == |content| then
      (doc, seen)
    else
      SeenStep(content, i);
      match Url(content[i])
      case None =>
        LocalizeFrom(content, nameOf, i + 1, doc, seen)
      case Some(u) =>
        if u !in OrderedMap.Keys(seen) && u != "" then
          var seen' := OrderedMap.Put(seen, u, nameOf(u));
          assert OrderedMap.Keys(seen') == OrderedMap.Keys(seen) + [u];
          LocalizeFrom(content, nameOf, i + 1, doc[i := Img(Some(nameOf(u)))], seen')
        else
          LocalizeFrom(content, nameOf, i + 1, doc, seen)
  }

  /**
   * `to_local_images` as written. The map holds one entry per distinct
   * non-empty (joined) URL, each naming `nameOf` of that URL, inline
   * `data:image/` URLs included. Only the first image with a given URL is
   * renamed; later ones keep their original `src`.
   */
  function ToLocalImages(content: seq<Img>, nameOf: string -> string): (r: (seq<Img>, ImageMap))
    ensures |r.0| == |content|
    ensures forall i :: 0 <= i < |content| ==> r.0[i] == RewrittenAsWritten(content, i, nameOf)
    ensures NamedMap(r.1, nameOf)
    ensures forall u :: u in OrderedMap.Keys(r.1) <==> u != "" && Seen(content, |content|, u)
  {
    LocalizeFrom(content, nameOf, 0, content, [])
  }

  /** Two images with the same root-relative `src`: the second keeps pointing at the remote path. */
  lemma DuplicateKeepsRemoteSrc(nameOf: string -> string)
    ensures var content := [Img(Some("/a.png")), Img(Some("/a.png"))];
      var r := ToLocalImages(content, nameOf);
      && r.0[0] == Img(Some(nameOf(BaseUrl + "a.png")))
      && r.0[1] == Img(Some("/a.png"))
      && OrderedMap.Keys(r.1) == [BaseUrl + "a.png"]
  {
    var content := [Img(Some("/a.png")), Img(Some("/a.png"))];
    var r := ToLocalImages(content, nameOf);
    assert "/a.png"[..1] == "/" && "/a.png"[1] == 'a';
    assert Url(content[0]) == Some(BaseUrl + "a.png");
    assert Url(content[1]) == Some(BaseUrl + "a.png");
    assert FirstOccurrence(content, 0);
    assert !FirstOccurrence(content, 1);
    var keys := OrderedMap.Keys(r.1);
    assert BaseUrl + "a.png" in keys by {
      assert Seen(content, 2, BaseUrl + "a.png");
    }
    OrderedMap.SingleKey(r.1, BaseUrl + "a.png");
  }

  /** The inline image accepted by the lemmas below. */
  const InlineImage := "data:image/png;base64,AAAA"

  /** What happened to one image `write_images` tried to copy into the archive. */
  datatype ImageFetch =
    | Fetched   // fetched and written into the archive
    | Swallowed // one of the request errors the loop catches and passes over
    | Escaped   // any other exception, which ends `write_images` and propagates

  /** The images written before `write_images` finished or an exception escaped. */
  datatype WriteOutcome = WriteOutcome(entries: ImageMap, raised: bool)

  /**
   * `write_images`: walks the map in order, skips inline `data:image/` URLs
   * without fetching them, writes each image whose fetch succeeds, passes
   * over the caught request errors, and stops at the first other exception.
   */
  function WriteImages(images: ImageMap, fetch: string -> ImageFetch): (r: WriteOutcome)
    ensures forall e :: e in r.entries ==> e in images && !StartsWith(e.0, DataImagePrefix) && fetch(e.0) == Fetched
    ensures !r.raised <==>
      forall k :: 0 <= k < |images| && !StartsWith(images[k].0, DataImagePrefix) ==> fetch(images[k].0) != Escaped
    ensures !r.raised ==>
      forall k :: 0 <= k < |images| && !StartsWith(images[k].0, DataImagePrefix) && fetch(images[k].0) == Fetched ==>
        images[k] in r.entries
  {
    if |images| == 0 then
      WriteOutcome([], false)
    else
      var rest := WriteImages(images[1..], fetch);
      assert forall k :: 1 <= k < |images| ==> images[k] == images[1..][k - 1];
      if StartsWith(images[0].0, DataImagePrefix) then
        rest
      else
        match fetch(images[0].0)
        case Escaped => WriteOutcome([], true)
        case Swallowed => rest
        case Fetched => WriteOutcome([images[0]] + rest.entries, rest.raised)
  }

  /**
   * An inline image is renamed by `to_local_images` as written, but
   * `write_images` never puts anything into the archive for it, so the
   * renamed `src` names a file the archive lacks.
   */
  lemma InlineImageNameNeverWritten(nameOf: string -> string, fetch: string -> ImageFetch)
    ensures var r := ToLocalImages([Img(Some(InlineImage))], nameOf);
      && r.0 == [Img(Some(nameOf(InlineImage)))]
      && OrderedMap.Keys(r.1) == [InlineImage]
      && WriteImages(r.1, fetch).entries == []
  {
    var content := [Img(Some(InlineImage))];
    var r := ToLocalImages(content, nameOf);
    assert StartsWith(InlineImage, DataImagePrefix);
    assert InlineImage[0] == 'd' && !StartsWith(InlineImage, "/");
    assert FirstOccurrence(content, 0);
    assert Seen(content, 1, InlineImage);
    OrderedMap.SingleKey(r.1, InlineImage);
    var entries := WriteImages(r.1, fetch).entries;
    assert forall e :: e in entries ==> e == r.1[0];
  }

  /** A URL the corrected localisation renames: non-empty and not an inline image. */
  predicate Localizable(u: string) {
    u != "" && !StartsWith(u, DataImagePrefix)
  }

  /** Image `img` with every localisable URL replaced by its file name. */
  function LocalizedImg(img: Img, nameOf: string -> string): Img {
    match Url(img)
    case Some(u) => if Localizable(u) then Img(Some(nameOf(u))) else img
    case None => img
  }

  /** The asset map of the corrected localisation: each localisable URL once, in first-seen order. */
  function AssetMap(content: seq<Img>, nameOf: string -> string): (m: ImageMap)
    ensures NamedMap(m, nameOf)
    ensures forall u :: u in OrderedMap.Keys(m) <==> Localizable(u) && Seen(content, |content|, u)
  {
    if |content| == 0 then
      []
    else
      var init := content[..|content| - 1];
      var m := AssetMap(init, nameOf);
      SeenInit(content);
      match Url(content[|init|])
      case Some(u) =>
        if Localizable(u) then
          OrderedMap.PutGet(m, u, nameOf(u));
          OrderedMap.PutValuesFrom(m, u, nameOf);
          OrderedMap.Put(m, u, nameOf(u))
        else
          m
      case None => m
  }

  /**
   * The evidently intended localisation: every image whose URL is
   * localisable is renamed to that URL's file name (not only the first),
   * inline `data:image/` sources stay inline, and the map holds each
   * localisable URL once.
   */
  function LocalizeImages(content: seq<Img>, nameOf: string -> string): (r: (seq<Img>, ImageMap))
    ensures |r.0| == |content|
    ensures forall i :: 0 <= i < |content| && Url(content[i]).Some? && Localizable(Url(content[i]).value) ==>
      && r.0[i] == Img(Some(nameOf(Url(content[i]).value)))
      && OrderedMap.Get(r.1, Url(content[i]).value) == Some(r.0[i].src.value)
    ensures forall i :: 0 <= i < |content| && !(Url(content[i]).Some? && Localizable(Url(content[i]).value)) ==>
      r.0[i] == content[i]
    ensures NamedMap(r.1, nameOf)
    ensures forall u :: u in OrderedMap.Keys(r.1) <==> Localizable(u) && Seen(content, |content|, u)
  {
    var doc := seq(|content|, i requires 0 <= i < |content| => LocalizedImg(content[i], nameOf));
    var m := AssetMap(content, nameOf);
    assert forall i :: 0 <= i < |content| && Url(content[i]).Some? && Localizable(Url(content[i]).value) ==>
      OrderedMap.Get(m, Url(content[i]).value) == Some(nameOf(Url(content[i]).value)) by {
      forall i | 0 <= i < |content| && Url(content[i]).Some? && Localizable(Url(content[i]).value)
        ensures OrderedMap.Get(m, Url(content[i]).value) == Some(nameOf(Url(content[i]).value))
      {
        assert Seen(content, |content|, Url(content[i]).value);
      }
    }
    (doc, m)
  }

  /**
   * Two images with the same localisable URL end up pointing at the same
   * local file, which the map lists exactly once.
   */
  lemma SameUrlSameFile(content: seq<Img>, nameOf: string -> string, i: int, j: int)
    requires 0 <= i < |content| && 0 <= j < |content|
    requires Url(content[i]) == Url(content[j]) && Url(content[i]).Some? && Localizable(Url(content[i]).value)
    ensures var r := LocalizeImages(content, nameOf);
      && r.0[i] == r.0[j]
      && |set k | 0 <= k < |r.1| && r.1[k].0 == Url(content[i]).value| == 1
  {
    var r := LocalizeImages(content, nameOf);
    var m := r.1;
    var u := Url(content[i]).value;
    assert Seen(content, |content|, u);
    var idx := OrderedMap.IndexOf(m, u);
    forall k | 0 <= k < |m| && m[k].0 == u
      ensures k == idx
    {
      assert m[k].0 == m[idx].0;
    }
    assert (set k | 0 <= k < |m| && m[k].0 == u) == {idx};
  }

  /** In a one-image document only that image's URL is seen. */
  lemma SeenSingle(content: seq<Img>, u: string)
    requires |content| == 1
    ensures Seen(content, 1, u) <==> Url(content[0]) == Some(u)
  {
  }

  /** The corrected localisation leaves an inline image inline and keeps it out of the map. */
  lemma InlineImageStaysInline(nameOf: string -> string)
    ensures var r := LocalizeImages([Img(Some(InlineImage))], nameOf);
      r.0 == [Img(Some(InlineImage))] && r.1 == []
  {
    var content := [Img(Some(InlineImage))];
    var r := LocalizeImages(content, nameOf);
    assert InlineImage[0] == 'd' && !StartsWith(InlineImage, "/");
    assert Url(content[0]) == Some(InlineImage);
    assert InlineImage[..|DataImagePrefix|] == DataImagePrefix;
    assert !Localizable(InlineImage);
    assert r.0[0] == content[0];
    forall u
      ensures u !in OrderedMap.Keys(r.1)
    {
      SeenSingle(content, u);
    }
    OrderedMap.NoKeys(r.1);
  }
}
