# Hsoub Academy content chef, modelled in Dafny

`sushichef.py` scrapes Hsoub Academy (lessons, books and questions) into a
content tree of topic, HTML5 and video nodes. This project models the
deterministic logic inside it, with HTTP, HTML parsing, youtube_dl and the
file system replaced by abstract inputs:

- `Pagination` (`paginator.dfy`): the `Paginator` state machine. It covers
  `build_page_url`, `__next__`, `__iter__` run to completion or drawn from
  step by step, and `find_max` over an abstract listing page.
- `Tree` (`tree.dfy`): topic nodes whose children form an insertion-ordered
  dictionary keyed by `source_id` (`add_node`, `to_node`), and the topic
  dispatch of `Category.add_topic`.
- `Images` (`images.dfy`): `HTMLApp.to_local_images` as written, a corrected
  localisation (see Findings), and `write_images`.
- `Bundle` (`bundle.dfy`): `HTMLApp.to_file` with its cache skip,
  `HTMLAppQA.to_file`, and `HTMLApp.to_node`. The localisation is a
  parameter: `AsWritten` is `to_local_images` as both `to_file` methods
  call it, and `Corrected` is the corrected localisation.
- `YouTube` (`youtube.dfy`): `clean_url`, `is_youtube`, `transform_embed`,
  the constructor, the control flow of the retry loop in `download`,
  `subtitles_dict` over abstract video info, and `to_node`.
- `Fetch` (`fetch.dfy`): the module-level `download` retry loop.
- Support modules:
  - `Strings` (`strings.dfy`): Python's `str.strip`, `find`/`in`,
    `startswith`, `"{}".format(n)` and `int(s)`.
  - `OrderedMap` (`ordered_map.dfy`): dictionary assignment and
    `dict.update` with insertion order.
  - `Wrappers` (`wrappers.dfy`): `Option`.

Documents are sequences of `<img>` records whose `src` is optional. Several
helpers become parameters:

- `get_name_from_url` becomes `nameOf`.
- `title_hash` becomes `titleHash`.
- `file_exists` becomes a set of existing paths.
- Each image fetch in `write_images` becomes `fetch`.
- The outcome of each pass of a retry loop becomes `attempt(i)`.

The two retry loops are methods with loop invariants. Each is paired with
a recursive account of the same loop: `Fetch.Outcome` and `YouTube.Replay`.

A few points where the code is followed as written:

- The `HTMLApp` constructor always downloads its page. The cache skip in
  `to_file` therefore saves the writing of the archive, not the fetch.
- `file_exists` comes from `utils` (sushichef.py:26), which is not part of
  this model. It is taken to be a test for existence only. An archive left
  incomplete by an exception still exists, because `write_index` creates it
  before `write_images` runs (sushichef.py:463-464). The next run therefore
  takes it as done (`Bundle.PartialArchiveIsCached`).
- `HTMLAppQA.to_file` localises each article before cleaning it
  (sushichef.py:503-504), while `HTMLApp.to_file` cleans the body first
  (sushichef.py:461-462). Cleaning is not part of this model, so the two
  orders give the same model.
- `get_video_info` catches the youtube_dl download and extractor errors
  itself and returns `None`. The loop's own youtube_dl handler therefore only
  sees errors raised outside that `try`.
- A failing `os.stat` is an `OSError`, which the first handler retries,
  after `filepath` has already been assigned.

## Model

| member | source | states |
|---|---|---|
| Pagination.PageUrlRoundTrip | sushichef.py:98-99 | the page number can be read back from every page URL, so distinct counters give distinct URLs |
| Pagination.Next | sushichef.py:110-113 | `__next__` moves the counter up by exactly one and changes nothing else |
| Pagination.NextNamesCounter | sushichef.py:98-99 | the URL `__next__` yields is the listing URL followed by `?page=`, and the page number read back from it is the counter before the step |
| Pagination.PageUrlInjective | sushichef.py:98-99 | different page numbers give different page URLs |
| Pagination.Iterate | sushichef.py:115-121 | a run to completion exists exactly when the last page is known |
| Pagination.IterateYields | sushichef.py:115-118 | with a known last page, a run from a counter at or above the initial page yields the URLs of pages counter, counter+1, …, last in order, and a run from below it yields nothing. The number yielded is `Remaining`, and the counter ends just past them, where the loop test fails |
| Pagination.FreshIteration | sushichef.py:91-121 | a fresh paginator over `initial..last` yields exactly `url?page=initial` … `url?page=last`, and the counter ends at `last + 1` |
| Pagination.IteratePagesDistinct | sushichef.py:110-118 | no page URL is yielded twice in one run |
| Pagination.NotRestartable | sushichef.py:96-118 | because the counter persists, iterating again after exhaustion yields nothing |
| Pagination.Unbounded | sushichef.py:119-121 | with no last page, any number `n` of pages can be drawn, numbered on from the counter |
| Pagination.TakeIsPrefix | sushichef.py:115-118 | drawing pages one at a time sees a prefix of the complete run |
| Pagination.FindMax | sushichef.py:101-108 | a failed fetch raises AttributeError. Without the page-jump widget the last page is 1. A widget without `input` raises AttributeError. A missing `max` gives 0. Only `last_page` changes |
| Pagination.FindMaxReadsMax | sushichef.py:106 | a `max` attribute holding the decimal text of `n` sets the last page to `n` |
| Pagination.SinglePageListing | sushichef.py:107-108 | a listing without the widget is walked as the single page `url?page=1` |
| Pagination.MissingMaxYieldsNothing | sushichef.py:106 | a widget whose input lacks `max` gives last page 0, and the loop yields nothing |
| Pagination.NeverEndsWithoutMax | sushichef.py:119-121 | before `find_max` a paginator never stops yielding |
| Strings.Strip | sushichef.py:535 | `str.strip()` leaves neither end as whitespace and never lengthens the string |
| Strings.StripSlice | sushichef.py:535 | what `strip` removes is whitespace at the two ends: the result is a slice of the input between all-whitespace flanks |
| Strings.Find | sushichef.py:538-541 | `find` gives -1 exactly when the text does not occur, otherwise the lowest index where it occurs |
| Strings.ParseIntRoundTrip | sushichef.py:106 | `int()` reads back what `"{}".format(n)` writes, for every integer |
| OrderedMap.Put | sushichef.py:138 | assigning a new key appends, and assigning a present key replaces its pair in place |
| OrderedMap.PutGet | sushichef.py:138 | assignment keeps keys distinct, yields the new value at its key and leaves every other key unchanged |
| OrderedMap.PutPresent | sushichef.py:138 | assigning to a present key keeps the key sequence, puts the new value at that key and leaves every other key's value alone |
| OrderedMap.PutNew | sushichef.py:138 | assigning to a new key appends it to the key sequence and leaves every other key's value alone |
| OrderedMap.UpdateGet | sushichef.py:503 | after `update` the keys are the union, still distinct. Keys of the argument take its values and the others keep theirs |
| OrderedMap.UpdateValuesFrom | sushichef.py:503 | merging two URL-to-name maps whose names come from `nameOf` gives another such map |
| Tree.AddNode | sushichef.py:135-138 | a `None` result is dropped. A new `source_id` is appended and a present one replaced in place. Nothing else changes. Keys stay distinct and each child sits under its own id |
| Tree.ToNode | sushichef.py:152-163 | a topic node whose children are the stored nodes in insertion order, so with no repeated `source_id` |
| Tree.AddNodesWellKeyed | sushichef.py:135-138 | any sequence of `add_node` calls keeps the children keyed by distinct `source_id`s |
| Tree.ReAddKeepsCount | sushichef.py:138 | re-adding a present `source_id` keeps the number and order of the keys |
| Tree.AddTopic | sushichef.py:171-178 | `#` adds nothing. Any other link appends exactly one topic: a lesson topic for "Lessons and Articles", a book topic for "Books and Resources", a question topic otherwise |
| Images.JoinToBase | sushichef.py:413-414 | a `/`-prefixed `src` is put under `BASE_URL`. A `//host` reference keeps its host and takes the `https` scheme. A `//` reference with an empty authority takes the base's host and keeps its own path, or the base's root when it has none |
| Images.EmptyAuthorityJoinsPath | sushichef.py:413-414 | `///p` joins exactly as the root path `/p` does |
| Images.ToLocalImages | sushichef.py:405-419 | as written: the map has one entry per distinct non-empty joined URL, named by `nameOf`. Exactly the first image with each URL is rewritten and the others are untouched |
| Images.DuplicateKeepsRemoteSrc | sushichef.py:416-418 | as written, a second image with the same URL keeps its remote `src` |
| Images.WriteImages | sushichef.py:421-439 | the images written into the archive are map entries whose fetch succeeded. Inline images are never fetched. The call raises exactly when some non-inline fetch escapes. Without an escape every successful fetch is written |
| Images.InlineImageNameNeverWritten | sushichef.py:416-426 | as written, a `data:image/` source is renamed and mapped, but `write_images` writes nothing for it |
| Images.AssetMap | sushichef.py:406-418 | the corrected map holds exactly the localisable URLs of the document, each named by `nameOf` |
| Images.LocalizeImages | sushichef.py:405-419 | corrected: every image with a localisable URL is rewritten to the name the map gives that URL. All other images are unchanged |
| Images.SameUrlSameFile | sushichef.py:416-418 | corrected: two images with the same URL point at the same file, listed once in the map |
| Images.InlineImageStaysInline | sushichef.py:425-426 | corrected: an inline image stays inline and out of the map |
| Bundle.WriteArchive | sushichef.py:463-465 | the index is always written. Without an escape the support files are added. An escape from `write_images` is reported as a raise |
| Bundle.Localise | sushichef.py:405-419 | as written, every non-empty URL of the document is mapped and the first image with each is rewritten. Corrected, only localisable URLs are mapped and every image showing one is rewritten. Either way each name comes from `nameOf` |
| Bundle.ToFile | sushichef.py:454-465 | the archive path is always set. An existing archive returns True and writes nothing. A missing body returns False. Otherwise the index is the body as `to_local_images` leaves it (as written) or as the corrected localisation leaves it, and only entries of that map are copied |
| Bundle.BundleKeepsDuplicateRemote | sushichef.py:461-464 | the archive `to_file` writes for two images `/a.png` keeps the second one remote; the corrected archive points both at the file |
| Bundle.CachedIgnoresBody | sushichef.py:455-458 | with the archive present the result depends on neither the body, nor the localisation, nor any image fetch |
| Bundle.NoBodyStillEmitsNode | sushichef.py:459-460 | a missing body returns False, but the path is set, so `to_node` still emits a node for an archive never written |
| Bundle.PartialArchiveIsCached | sushichef.py:456-464 | after an escape while copying images, the incomplete archive lacks the support files, and the next run returns True for it |
| Bundle.MergedImages | sushichef.py:501-503 | the question page's map, merged with `dict.update`, holds exactly the non-empty URLs of any of its articles (as written) or their localisable URLs (corrected), each named by `nameOf` |
| Bundle.QaMapsInlineImage | sushichef.py:501-503 | as written, an inline image of an article enters the question page's map; corrected, it does not |
| Bundle.LocalizeArticles | sushichef.py:502-504 | each article is localised on its own, in order: as written, exactly the first image with each URL in that article is rewritten; corrected, every image with a localisable URL is |
| Bundle.QaToFile | sushichef.py:496-507 | no existence check: the path is set, a missing body returns False, and otherwise every article is localised and written |
| Bundle.QaRewritesExisting | sushichef.py:496-499 | where `HTMLApp.to_file` skips an existing archive, `HTMLAppQA.to_file` writes it again |
| Bundle.ToNode | sushichef.py:467-482 | a node exists exactly when a path is set. It is an HTML5 node whose one file is the archive, with the default author unless one is set |
| YouTube.CleanUrl | sushichef.py:529-535 | the empty URL is returned unchanged. Otherwise one trailing `/` is dropped, then the rest is stripped |
| YouTube.CleanUrlSlice | sushichef.py:529-535 | `clean_url` only removes characters at the two ends |
| YouTube.CleanUrlDropsOneSlash | sushichef.py:533-535 | on a stripped URL, exactly one trailing slash goes |
| YouTube.CleanUrlNotIdempotent | sushichef.py:533-535 | for a non-empty stripped `u`, `u//` cleans to `u/`, which cleans again to `u` |
| YouTube.CleanUrlSlashBeforeSpace | sushichef.py:533-535 | the slash test comes before stripping, so `a/ ` keeps its slash |
| YouTube.IsYoutube | sushichef.py:537-542 | true exactly when the URL contains `youtube` or `youtu.be` and, unless `get_channel`, contains neither `user` nor `/c/` |
| YouTube.IsYoutubeChannelWidens | sushichef.py:539-541 | allowing channels only admits more URLs, and only those mentioning `user` or `/c/` |
| YouTube.UserAnywhereRefused | sushichef.py:541 | a watch link whose query mentions `user` is refused unless channels are allowed |
| YouTube.BeforeQuery | sushichef.py:546 | the prefix before the first `?`, or the whole URL when it has none |
| YouTube.ReplaceRemovesEmbed | sushichef.py:547 | after replacing `embed/` by `watch?v=` no `embed/` is left, including none formed across a replacement |
| YouTube.TransformEmbed | sushichef.py:544-547 | the result is stripped and contains no `embed/` |
| YouTube.ReplaceAtFirst | sushichef.py:547 | `replace` copies the text before the first `embed/`, writes `watch?v=` for it, and carries on after it |
| YouTube.ReplaceAtFind | sushichef.py:547 | without `embed/` the text is unchanged. Otherwise it is split at the index `find` gives, which becomes `watch?v=` |
| YouTube.TransformPlainUrl | sushichef.py:544-547 | a URL with no `?` and no `embed/` is only stripped |
| YouTube.EmbedBecomesWatch | sushichef.py:544-547 | `yt/embed/x?a` becomes `yt/watch?v=x` |
| YouTube.NewVideo | sushichef.py:511-527 | the source id is `transform_embed` of the link when it is embedded and `clean_url` of it otherwise, so it is stripped, and free of `embed/` when embedded. Name and language are the arguments, and nothing is downloaded yet |
| YouTube.Join | sushichef.py:632 | POSIX `os.path.join`: an absolute second part wins, otherwise one separator between the parts |
| YouTube.Step | sushichef.py:629-636 | a pass with the info sets the path and name, and an empty file takes the path back to `None`. Other passes change nothing |
| YouTube.DownloadVideo | sushichef.py:621-648 | no pass unless the source has `watch?`, lacks `/user/` and downloading is on. At most 4 passes, and all but the last retried. Stops early only at a non-retried pass. Raises exactly on an unhandled error. The result is the replay of the passes made |
| YouTube.ReplayWithoutInfo | sushichef.py:629-636 | passes that never got the info leave the resource unchanged |
| YouTube.LastInfoWins | sushichef.py:629-636 | the last pass that got the info decides `filepath` and `filename`, and nothing else changes |
| YouTube.ReplayPathHasName | sushichef.py:632-633 | a path is only ever set together with a name |
| YouTube.StatFailureKeepsPath | sushichef.py:632-640 | after a failing `os.stat` and a pass without info, the path of an unconfirmed file remains |
| YouTube.EmptyFileNoNode | sushichef.py:634-651 | when the last pass with info found an empty file, `to_node` emits nothing |
| YouTube.SubtitlesDict | sushichef.py:607-616 | one subtitle file per language of the video, none without info or subtitles |
| YouTube.ToNode | sushichef.py:650-664 | a video node exactly when a path is set. The video comes first, then the subtitles. The title is the name, else the downloaded title |
| YouTube.FreshDownloadNode | sushichef.py:621-664 | for a fresh resource a node implies a known file name, and no pass with info means no node |
| Fetch.Download | sushichef.py:667-684 | 1 to 4 attempts, all but the last retryable. A successful read is returned parsed. Four retryable failures give False. Any other error escapes |
| Fetch.FourFailuresGiveUp | sushichef.py:668-684 | four retryable failures in a row end in False |

## Left out

- HTTP sessions, caching adapters, sleeps and logging: outcomes are inputs.
- BeautifulSoup: a document is the sequence of its `<img>` tags, and a listing page is the page-jump widget alone.
- `clean()`, `link_to_text` and the `remove_*` helpers: the `utils` module is not part of this model. The bundles localise the body as given, so the order of cleaning and localising does not show.
- The HTML page wrapper that both `to_file` methods format around the body, and the `<h2>` title that `HTMLAppQA.to_file` puts first (sushichef.py:463, 500, 505): `write_index` writes what it is given, and Bundle.ToFile and Bundle.QaToFile record the localised body or articles only.
- SHA-1 and `get_name_from_url`: they are the opaque parameters `titleHash` and `nameOf`.
- `build_path`: it is not part of this model (it is in `utils`). `DownloadVideo` takes the resulting directory as `downloadTo`.
- Zip writing (`HTMLWriter`) and copying the stylesheet and script: an archive is recorded as index, images and support file names.
- youtube_dl: `get_video_info` is a per-pass outcome and `subtitles_dict` takes the info as input. `playlist_links` and `playlist_name_links` are left out as further youtube_dl calls.
- Topic listing scraping, `Category.download`, `Book`, `Question`, `Article.download` and the thumbnail setter: they only do network or file work around the modelled parts.
- The chef subclass, its CLI and the global `DOWNLOAD_VIDEOS` flag.
- Strings.ParseInt: does not accept the surrounding whitespace, underscores or non-ASCII digits that Python's `int()` accepts. `max` attributes are plain decimal numbers.
- Images.JoinToBase: models `urljoin` only for `src` starting with `/`. It does not remove `.` and `..` segments, and it does not drop an empty `?` or `#` the way `urlunparse` does.
- YouTube.IsYoutube: `get_channel is False` is an identity test in the source. The model's `getChannel` is a boolean, so falsy non-`False` values are not modelled.
- YouTube.ToNode: where both name and file name are `None` the source gives title `None` and the model gives `""`. `YouTube.FreshDownloadNode` shows this state does not follow from `download`.
- YouTube.Step: `info["id"]` and `info["title"]` are assumed present. A `KeyError` from them is not modelled.
- Bundle.ToFile: the body is an input. `soup()`, which stores `None` as the body when the page fetch fails, is not modelled.

## Findings

| source | as written | input that shows it | evidently intended | confidence | as-written member | corrected member |
|---|---|---|---|---|---|---|
| sushichef.py:416-418 | only the first image with a given URL is rewritten to the local file name; later ones keep their remote `src` | two images with `src="/a.png"` | every image with that URL points at the one local copy, so the offline page shows all of them | medium, not executed | Images.DuplicateKeepsRemoteSrc | Images.SameUrlSameFile |
| sushichef.py:416-426 | a `data:image/` source is rewritten to a file name and mapped, but `write_images` skips it, so the page refers to a file the archive lacks | one image with `src="data:image/png;base64,AAAA"` | inline images stay inline, since they need no copy | medium, not executed | Images.InlineImageNameNeverWritten | Images.InlineImageStaysInline |

Both corrections are in `Images.LocalizeImages`. `Images.ToLocalImages`
models the code as written. `Bundle.ToFile` and `Bundle.QaToFile` take
either as their `Localisation`: `AsWritten` is what the code does, and
`Corrected` is the intended bundle.
