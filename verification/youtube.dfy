/**
 * `YouTubeResource`: the URL clean-up done at construction (`clean_url`,
 * `transform_embed`), the `is_youtube` test, the control flow of the retry
 * loop in `download`, and `to_node`.
 *
 * youtube_dl itself is not modelled. Each pass of the download loop sees one
 * `VideoAttempt`: what `get_video_info` and `os.stat` did on that pass.
 */
module YouTube {
  import opened Wrappers
  import opened Strings
  import Tree

  /**
   * `clean_url`: one trailing `/` dropped, then surrounding whitespace
   * stripped; the empty URL is returned as it is.
   */
  function CleanUrl(url: string): (r: string)
    ensures Stripped(r)
    ensures |url| > 0 && url[|url| - 1] == '/' ==> r == Strip(url[..|url| - 1])
    ensures |url| > 0 && url[|url| - 1] != '/' ==> r == Strip(url)
    ensures |url| == 0 ==> r == url
  {
    if |url| == 0 then
      url
    else
      var u := if url[|url| - 1] == '/' then url[..|url| - 1] else url;
      Strip(u)
  }

  /**
   * `clean_url` is a slice of its input: it only ever removes characters at
   * the two ends, one slash and whitespace.
   */
  lemma CleanUrlSlice(url: string) returns (i: nat)
    ensures i + |CleanUrl(url)| <= |url| && CleanUrl(url) == url[i..i + |CleanUrl(url)|]
  {
    if |url| == 0 {
      i := 0;
    } else {
      var n := CleanUrlStripsPrefix(url);
      i := StripPrefixSlice(url, n);
    }
  }

  /** A non-empty URL is cleaned by stripping a prefix of it: all of it, or all but its last `/`. */
  lemma CleanUrlStripsPrefix(url: string) returns (n: nat)
    requires |url| > 0
    ensures n <= |url| && CleanUrl(url) == Strip(url[..n])
  {
    if url[|url| - 1] == '/' {
      n := |url| - 1;
    } else {
      n := |url|;
      assert url[..n] == url;
    }
  }

  /** On a stripped URL, `clean_url` removes exactly one trailing slash. */
  lemma CleanUrlDropsOneSlash(u: string)
    requires Stripped(u)
    ensures CleanUrl(u + "/") == u
  {
    assert (u + "/")[..|u|] == u;
    StripKeepsStripped(u);
  }

  /**
   * Only one trailing slash goes: `clean_url` is not idempotent. For a
   * stripped `u`, `u//` cleans to `u/`, which cleans again to `u`.
   */
  lemma CleanUrlNotIdempotent(u: string)
    requires |u| > 0 && Stripped(u)
    ensures CleanUrl(u + "//") == u + "/"
    ensures CleanUrl(CleanUrl(u + "//")) == u
  {
    var u1 := u + "/";
    assert u1[0] == u[0] && u1[|u1| - 1] == '/' && !IsSpace('/');
    CleanUrlDropsOneSlash(u1);
    assert u1 + "/" == u + "//";
    CleanUrlDropsOneSlash(u);
  }

  /** The slash is tested before stripping, so a slash followed by a space survives. */
  lemma CleanUrlSlashBeforeSpace()
    ensures CleanUrl("a/ ") == "a/"
  {
    var s, t := "a/ ", "a/";
    assert s[|s| - 1] == ' ' && IsSpace(' ');
    assert LStrip(s) == s by {
      assert !IsSpace(s[0]);
    }
    assert s[..|s| - 1] == t;
    assert RStrip(t) == t by {
      assert !IsSpace(t[|t| - 1]);
    }
  }

  /**
   * `is_youtube`: the URL mentions `youtube` or `youtu.be`; unless
   * `get_channel` is set, it must also mention neither `user` nor `/c/`.
   */
  function IsYoutube(url: string, getChannel: bool): (r: bool)
    ensures r <==>
      && (Contains(url, "youtube") || Contains(url, "youtu.be"))
      && (getChannel || (!Contains(url, "user") && !Contains(url, "/c/")))
  {
    var youtube := Find(url, "youtube") != -1 || Find(url, "youtu.be") != -1;
    if !getChannel then youtube && Find(url, "user") == -1 && Find(url, "/c/") == -1 else youtube
  }

  /** Allowing channels only ever admits more URLs. */
  lemma IsYoutubeChannelWidens(url: string)
    ensures IsYoutube(url, false) ==> IsYoutube(url, true)
    ensures IsYoutube(url, true) && !Contains(url, "user") && !Contains(url, "/c/") ==> IsYoutube(url, false)
  {
  }

  /**
   * The channel filter looks for `user` anywhere, not for a `/user/` path
   * segment: a video link whose query mentions `user` is refused.
   */
  lemma UserAnywhereRefused()
    ensures !IsYoutube("youtube.com/watch?v=user", false)
    ensures IsYoutube("youtube.com/watch?v=user", true)
  {
    assert OccursAt("youtube.com/watch?v=user", "youtube", 0);
    assert OccursAt("youtube.com/watch?v=user", "user", 20);
  }

  /** `"".join(url.split("?")[:1])`: everything before the first `?`. */
  function BeforeQuery(url: string): (r: string)
    ensures |r| <= |url| && r == url[..|r|]
    ensures forall i :: 0 <= i < |r| ==> r[i] != '?'
    ensures |r| < |url| ==> url[|r|] == '?'
    ensures (forall i :: 0 <= i < |url| ==> url[i] != '?') ==> r == url
  {
    if |url| == 0 || url[0] == '?' then [] else [url[0]] + BeforeQuery(url[1..])
  }

  const Embed := "embed/"
  const Watch := "watch?v="

  /** `s.replace("embed/", "watch?v=")`: occurrences replaced left to right, without overlap. */
  function ReplaceEmbed(s: string): string
    decreases |s|
  {
    if |s| < |Embed| then s
    else if s[..|Embed|] == Embed then Watch + ReplaceEmbed(s[|Embed|..])
    else [s[0]] + ReplaceEmbed(s[1..])
  }

  /** A replacement puts `watch?v=`, which starts with `w`, at the front. */
  lemma ReplacementStartsWithW(s: string)
    requires |s| >= |Embed| && s[..|Embed|] == Embed
    ensures |ReplaceEmbed(s)| > 0 && ReplaceEmbed(s)[0] == 'w'
  {
    assert ReplaceEmbed(s) == Watch + ReplaceEmbed(s[|Embed|..]);
  }

  /**
   * Every replacement starts with `w`, so the first `n` characters of the
   * result, when none of them is a `w`, were copied from the input.
   */
  lemma {:induction false} CopiedPrefix(s: string, n: nat)
    requires n <= |ReplaceEmbed(s)|
    requires forall k :: 0 <= k < n ==> ReplaceEmbed(s)[k] != 'w'
    ensures n <= |s| && s[..n] == ReplaceEmbed(s)[..n]
    decreases |s|
  {
    if n > 0 && |s| >= |Embed| {
      if s[..|Embed|] == Embed {
        ReplacementStartsWithW(s);
        assert false;
      } else {
        var r := ReplaceEmbed(s);
        var rest := ReplaceEmbed(s[1..]);
        assert r == [s[0]] + rest;
        forall k | 0 <= k < n - 1
          ensures rest[k] != 'w'
        {
          assert rest[k] == r[k + 1];
        }
        CopiedPrefix(s[1..], n - 1);
        assert s[..n] == [s[0]] + s[1..][..n - 1];
        assert r[..n] == [s[0]] + rest[..n - 1];
      }
    }
  }

  /** No character of `embed/` is a `w`. */
  lemma EmbedHasNoW()
    ensures forall k :: 0 <= k < |Embed| ==> Embed[k] != 'w'
  {
  }

  /**
   * A copied first character cannot start an `embed/`: being free of `w`,
   * the whole `embed/` would have been copied from the input, which would
   * then have started with `embed/` itself.
   */
  lemma CopiedHeadStartsNoEmbed(s: string)
    requires |s| >= |Embed| && s[..|Embed|] != Embed
    ensures !OccursAt(ReplaceEmbed(s), Embed, 0)
  {
    var r := ReplaceEmbed(s);
    if OccursAt(r, Embed, 0) {
      assert r[..|Embed|] == Embed;
      EmbedHasNoW();
      forall k | 0 <= k < |Embed|
        ensures r[k] != 'w'
      {
        assert r[k] == r[..|Embed|][k];
      }
      CopiedPrefix(s, |Embed|);
      assert false;
    }
  }

  /** An occurrence past a prefix is an occurrence in what follows it. */
  lemma OccursAfterPrefix(a: string, b: string, t: string, i: int)
    requires |a| <= i
    ensures OccursAt(a + b, t, i) <==> OccursAt(b, t, i - |a|)
  {
    if i + |t| <= |a + b| {
      assert (a + b)[i..i + |t|] == b[i - |a|..i - |a| + |t|];
    }
  }

  /** After the replacement no `embed/` is left, not even one formed across a replacement. */
  lemma {:induction false} ReplaceRemovesEmbed(s: string)
    ensures !Contains(ReplaceEmbed(s), Embed)
    decreases |s|
  {
    var r := ReplaceEmbed(s);
    if |s| >= |Embed| {
      if s[..|Embed|] == Embed {
        var rest := ReplaceEmbed(s[|Embed|..]);
        assert r == Watch + rest;
        ReplaceRemovesEmbed(s[|Embed|..]);
        forall i | 0 <= i <= |r| - |Embed|
          ensures !OccursAt(r, Embed, i)
        {
          if i < |Watch| {
            assert r[i] == Watch[i];
          } else {
            OccursAfterPrefix(Watch, rest, Embed, i);
          }
        }
      } else {
        var rest := ReplaceEmbed(s[1..]);
        assert r == [s[0]] + rest;
        ReplaceRemovesEmbed(s[1..]);
        forall i | 0 <= i <= |r| - |Embed|
          ensures !OccursAt(r, Embed, i)
        {
          if i == 0 {
            CopiedHeadStartsNoEmbed(s);
          } else {
            OccursAfterPrefix([s[0]], rest, Embed, i);
          }
        }
      }
    }
  }

  /** A substring of a slice is a substring of the whole. */
  lemma ContainsInSlice(s: string, i: nat, j: nat, t: string)
    requires i <= j <= |s|
    requires Contains(s[i..j], t)
    ensures Contains(s, t)
  {
    var k :| 0 <= k <= |s[i..j]| - |t| && OccursAt(s[i..j], t, k);
    assert |s[i..j]| == j - i;
    forall n | 0 <= n < |t|
      ensures s[i + k + n] == t[n]
    {
      assert s[i..j][k..k + |t|][n] == t[n];
    }
    assert OccursAt(s, t, i + k);
  }

  /** A substring of the tail is a substring of the whole. */
  lemma ContainsInTail(s: string, t: string)
    requires |s| > 0 && Contains(s[1..], t)
    ensures Contains(s, t)
  {
    var k :| 0 <= k <= |s| - 1 - |t| && OccursAt(s[1..], t, k);
    assert s[1..][k..k + |t|] == s[k + 1..k + 1 + |t|];
    assert OccursAt(s, t, k + 1);
  }

  /** Stripping cannot make a string contain what it did not contain. */
  lemma StripAddsNothing(s: string, t: string)
    requires !Contains(s, t)
    ensures !Contains(Strip(s), t)
  {
    var i := StripSlice(s);
    if Contains(Strip(s), t) {
      ContainsInSlice(s, i, i + |Strip(s)|, t);
    }
  }

  /**
   * `transform_embed`: the query is cut off, `embed/` becomes `watch?v=`,
   * and surrounding whitespace is stripped.
   */
  function TransformEmbed(url: string): (r: string)
    ensures Stripped(r)
    ensures !Contains(r, Embed)
  {
    ReplaceRemovesEmbed(BeforeQuery(url));
    StripAddsNothing(ReplaceEmbed(BeforeQuery(url)), Embed);
    Strip(ReplaceEmbed(BeforeQuery(url)))
  }

  /** A URL without query or `embed/` is only stripped. */
  lemma {:induction false} ReplaceWithoutEmbed(s: string)
    requires !Contains(s, Embed)
    ensures ReplaceEmbed(s) == s
    decreases |s|
  {
    if |s| >= |Embed| {
      assert !OccursAt(s, Embed, 0);
      if Contains(s[1..], Embed) {
        ContainsInTail(s, Embed);
        assert false;
      }
      ReplaceWithoutEmbed(s[1..]);
      assert ReplaceEmbed(s) == [s[0]] + s[1..];
      assert [s[0]] + s[1..] == s;
    }
  }

  /**
   * `str.replace` at the first `embed/`: the text before it is copied, that
   * occurrence becomes `watch?v=`, and the replacement goes on after it.
   */
  lemma {:induction false} ReplaceAtFirst(s: string, i: nat)
    requires OccursAt(s, Embed, i)
    requires forall j :: 0 <= j < i ==> !OccursAt(s, Embed, j)
    ensures ReplaceEmbed(s) == s[..i] + Watch + ReplaceEmbed(s[i + |Embed|..])
    decreases i
  {
    if i == 0 {
      ReplaceAtStart(s);
      assert s[..0] + Watch == Watch;
    } else {
      var t := s[1..];
      ReplaceStepsOver(s);
      FirstInTail(s, i);
      ReplaceAtFirst(t, i - 1);
      assert t[i - 1 + |Embed|..] == s[i + |Embed|..];
      HeadThenRest(s, i, Watch, ReplaceEmbed(s[i + |Embed|..]));
    }
  }

  /** Where `s` starts with `embed/`, that occurrence becomes `watch?v=`. */
  lemma ReplaceAtStart(s: string)
    requires OccursAt(s, Embed, 0)
    ensures ReplaceEmbed(s) == Watch + ReplaceEmbed(s[|Embed|..])
  {
    assert s[..|Embed|] == Embed;
  }

  /** Where `s` does not start with `embed/`, its first character is copied. */
  lemma ReplaceStepsOver(s: string)
    requires |s| > 0 && !OccursAt(s, Embed, 0)
    ensures ReplaceEmbed(s) == [s[0]] + ReplaceEmbed(s[1..])
  {
  }

  /** Putting the head back in front of a prefix of the tail. */
  lemma HeadThenRest(s: string, i: nat, w: string, x: string)
    requires 0 < i <= |s|
    ensures [s[0]] + (s[1..][..i - 1] + w + x) == s[..i] + w + x
  {
    assert [s[0]] + s[1..][..i - 1] == s[..i];
  }

  /** The first `embed/` past the head of `s` is the first one of its tail, one place earlier. */
  lemma FirstInTail(s: string, i: nat)
    requires 0 < i && OccursAt(s, Embed, i)
    requires forall j :: 0 <= j < i ==> !OccursAt(s, Embed, j)
    ensures OccursAt(s[1..], Embed, i - 1)
    ensures forall j :: 0 <= j < i - 1 ==> !OccursAt(s[1..], Embed, j)
  {
    var t := s[1..];
    assert s == [s[0]] + t;
    forall j | 0 <= j < i - 1
      ensures !OccursAt(t, Embed, j)
    {
      OccursAfterPrefix([s[0]], t, Embed, j + 1);
    }
    OccursAfterPrefix([s[0]], t, Embed, i);
  }

  /** The replacement in terms of `find`: unchanged without `embed/`, otherwise split at the first one. */
  lemma ReplaceAtFind(s: string)
    ensures Find(s, Embed) == -1 ==> ReplaceEmbed(s) == s
    ensures Find(s, Embed) != -1 ==>
      ReplaceEmbed(s) == s[..Find(s, Embed)] + Watch + ReplaceEmbed(s[Find(s, Embed) + |Embed|..])
  {
    var i := Find(s, Embed);
    if i == -1 {
      ReplaceWithoutEmbed(s);
    } else {
      ReplaceAtFirst(s, i);
    }
  }

  /** Without a `?` and without `embed/`, `transform_embed` is `strip`. */
  lemma TransformPlainUrl(url: string)
    requires forall i :: 0 <= i < |url| ==> url[i] != '?'
    requires !Contains(url, Embed)
    ensures TransformEmbed(url) == Strip(url)
  {
    ReplaceWithoutEmbed(url);
  }

  /** The text before a `?` when it holds none itself. */
  lemma {:induction false} BeforeFirstQuery(p: string, q: string)
    requires forall i :: 0 <= i < |p| ==> p[i] != '?'
    ensures BeforeQuery(p + "?" + q) == p
    decreases |p|
  {
    if |p| > 0 {
      assert (p + "?" + q)[1..] == p[1..] + "?" + q;
      BeforeFirstQuery(p[1..], q);
    }
  }

  /** A character that does not start an `embed/` is copied. */
  lemma ReplaceCopiesHead(c: char, s: string)
    requires c != Embed[0]
    ensures ReplaceEmbed([c] + s) == [c] + ReplaceEmbed(s)
  {
    var t := [c] + s;
    assert t[1..] == s;
    if |t| >= |Embed| {
      assert t[..|Embed|][0] == c;
    }
  }

  /** An `embed/` at the front becomes `watch?v=`. */
  lemma ReplaceLeadingEmbed(s: string)
    ensures ReplaceEmbed(Embed + s) == Watch + ReplaceEmbed(s)
  {
    var t := Embed + s;
    assert t[..|Embed|] == Embed;
    assert t[|Embed|..] == s;
  }

  /** `yt/embed/x` has its `embed/` replaced and the rest copied. */
  lemma ReplaceExample()
    ensures ReplaceEmbed("yt/embed/x") == "yt/watch?v=x"
  {
    var x := "x";
    ReplaceLeadingEmbed(x);
    ReplaceCopiesHead('/', Embed + x);
    ReplaceCopiesHead('t', "/" + Embed + x);
    ReplaceCopiesHead('y', "t/" + Embed + x);
    assert "yt/embed/x" == "y" + ("t" + ("/" + (Embed + x)));
    assert "yt/watch?v=x" == "y" + ("t" + ("/" + (Watch + x)));
  }

  /** An embed link becomes the watch link of the same video. */
  lemma EmbedBecomesWatch()
    ensures TransformEmbed("yt/embed/x?a") == "yt/watch?v=x"
  {
    var p, q := "yt/embed/x", "a";
    assert p + "?" + q == "yt/embed/x?a";
    BeforeFirstQuery(p, q);
    ReplaceExample();
    var w := "yt/watch?v=x";
    assert w[0] == 'y' && w[|w| - 1] == 'x';
    assert !IsSpace('y') && !IsSpace('x');
    StripKeepsStripped(w);
  }

  /** A `YouTubeResource`, with the attributes the download and the node use. */
  datatype VideoResource = VideoResource(
    sourceId: string,
    name: Option<string>,
    lang: string,
    filepath: Option<string>,
    filename: Option<string>)

  /**
   * The constructor: an embedded link goes through `transform_embed`, any
   * other through `clean_url`; nothing is downloaded yet.
   */
  function NewVideo(sourceId: string, name: Option<string>, lang: string, embedded: bool): (r: VideoResource)
    ensures r.filepath.None? && r.filename.None?
    ensures r.name == name && r.lang == lang
    ensures embedded ==> r.sourceId == TransformEmbed(sourceId)
    ensures !embedded ==> r.sourceId == CleanUrl(sourceId)
    ensures Stripped(r.sourceId)
    ensures embedded ==> !Contains(r.sourceId, Embed)
  {
    VideoResource(if embedded then TransformEmbed(sourceId) else CleanUrl(sourceId), name, lang, None, None)
  }

  /** `download` goes ahead only for a watch link that is no user page, with `download` set. */
  predicate Eligible(sourceId: string, download: bool) {
    Contains(sourceId, "watch?") && !Contains(sourceId, "/user/") && download
  }

  /** POSIX `os.path.join(a, b)`: an absolute `b` wins, otherwise one separator between them. */
  function Join(a: string, b: string): (r: string)
    ensures StartsWith(b, "/") ==> r == b
    ensures !StartsWith(b, "/") ==> r == (if a == [] || a[|a| - 1] == '/' then a else a + "/") + b
  {
    if |b| > 0 && b[0] == '/' then b
    else if a == [] || a[|a| - 1] == '/' then a + b
    else a + "/" + b
  }

  /** `os.path.join(download_to, "{}.mp4".format(info["id"]))`. */
  function VideoPath(downloadTo: string, id: string): string {
    Join(downloadTo, id + ".mp4")
  }

  /** What `os.stat` reports on the downloaded file. */
  datatype Stat = Size(bytes: nat) | StatFailed

  /**
   * One pass of the download loop:
   * `Extracted`: `get_video_info` returned the video's info, then `os.stat` ran;
   * `Swallowed`: `get_video_info` caught a youtube_dl error and returned `None`;
   * `Retryable`: a `ValueError`, `IOError`, `OSError`, `URLError` or `ConnectionResetError` escaped it;
   * `ExtractorEscaped`: a youtube_dl error escaped it (the loop's second handler);
   * `Unhandled`: any other exception, which leaves `download`.
   */
  datatype VideoAttempt =
    | Extracted(id: string, title: string, stat: Stat)
    | Swallowed
    | Retryable
    | ExtractorEscaped
    | Unhandled

  /** The passes after which the loop goes round again. A failing `os.stat` raises `OSError`. */
  predicate Retries(a: VideoAttempt) {
    a.Retryable? || (a.Extracted? && a.stat.StatFailed?)
  }

  /** `range(4)`. */
  const MaxVideoTries := 4

  /**
   * What one pass does to the resource: with the info in hand it sets
   * `filepath` and `filename`, taking `filepath` back to `None` for an empty
   * file; an exception raised by `os.stat` comes after both assignments.
   */
  function Step(res: VideoResource, downloadTo: string, a: VideoAttempt): (r: VideoResource)
    ensures !a.Extracted? ==> r == res
    ensures a.Extracted? ==> r.filename == Some(a.title)
    ensures a.Extracted? ==> r.filepath == (if a.stat == Size(0) then None else Some(VideoPath(downloadTo, a.id)))
    ensures r == res.(filepath := r.filepath, filename := r.filename)
  {
    match a
    case Extracted(id, title, stat) =>
      res.(filepath := if stat == Size(0) then None else Some(VideoPath(downloadTo, id)), filename := Some(title))
    case _ => res
  }

  /** The resource after the first `n` passes, one `Step` after another. */
  function Replay(res: VideoResource, downloadTo: string, attempt: nat -> VideoAttempt, n: nat): VideoResource
    decreases n
  {
    if n == 0 then res else Step(Replay(res, downloadTo, attempt, n - 1), downloadTo, attempt(n - 1))
  }

  /**
   * `YouTubeResource.download`. Returns the resource afterwards, the number of
   * passes made, and whether an exception left the method.
   */
  method DownloadVideo(res: VideoResource, download: bool, downloadTo: string, attempt: nat -> VideoAttempt)
    returns (r: VideoResource, tries: nat, raised: bool)
    ensures !Eligible(res.sourceId, download) ==> r == res && tries == 0 && !raised
    ensures Eligible(res.sourceId, download) ==> 1 <= tries <= MaxVideoTries
    ensures forall i :: 0 <= i < tries - 1 ==> Retries(attempt(i))
    ensures 0 < tries < MaxVideoTries ==> !Retries(attempt(tries - 1))
    ensures raised <==> tries > 0 && attempt(tries - 1).Unhandled?
    ensures r == Replay(res, downloadTo, attempt, tries)
  {
    r, tries, raised := res, 0, false;
    if !Eligible(res.sourceId, download) {
      return;
    }
    while tries < MaxVideoTries
      invariant tries <= MaxVideoTries
      invariant forall i :: 0 <= i < tries ==> Retries(attempt(i))
      invariant r == Replay(res, downloadTo, attempt, tries)
    {
      var a := attempt(tries);
      r := Step(r, downloadTo, a);
      tries := tries + 1;
      if !Retries(a) {
        raised := a.Unhandled?;
        return;
      }
    }
  }

  /** Passes that never got the video's info leave the resource as it was. */
  lemma {:induction false} ReplayWithoutInfo(res: VideoResource, downloadTo: string, attempt: nat -> VideoAttempt, n: nat)
    requires forall i :: 0 <= i < n ==> !attempt(i).Extracted?
    ensures Replay(res, downloadTo, attempt, n) == res
    decreases n
  {
    if n > 0 {
      ReplayWithoutInfo(res, downloadTo, attempt, n - 1);
    }
  }

  /**
   * The last pass that got the video's info decides `filepath` and
   * `filename`, whatever later passes did.
   */
  lemma {:induction false} LastInfoWins(res: VideoResource, downloadTo: string, attempt: nat -> VideoAttempt, n: nat, j: nat)
    requires j < n && attempt(j).Extracted?
    requires forall i :: j < i < n ==> !attempt(i).Extracted?
    ensures var r := Replay(res, downloadTo, attempt, n);
      && r.filename == Some(attempt(j).title)
      && r.filepath == (if attempt(j).stat == Size(0) then None else Some(VideoPath(downloadTo, attempt(j).id)))
      && r == res.(filepath := r.filepath, filename := r.filename)
    decreases n
  {
    if n > j + 1 {
      LastInfoWins(res, downloadTo, attempt, n - 1, j);
    } else {
      ReplayKeepsRest(res, downloadTo, attempt, j);
    }
  }

  /** Passes change `filepath` and `filename` only. */
  lemma {:induction false} ReplayKeepsRest(res: VideoResource, downloadTo: string, attempt: nat -> VideoAttempt, n: nat)
    ensures var r := Replay(res, downloadTo, attempt, n); r == res.(filepath := r.filepath, filename := r.filename)
    decreases n
  {
    if n > 0 {
      ReplayKeepsRest(res, downloadTo, attempt, n - 1);
    }
  }

  /** A path is only ever set together with a name. */
  lemma {:induction false} ReplayPathHasName(res: VideoResource, downloadTo: string, attempt: nat -> VideoAttempt, n: nat)
    requires res.filepath.Some? ==> res.filename.Some?
    ensures var r := Replay(res, downloadTo, attempt, n); r.filepath.Some? ==> r.filename.Some?
    decreases n
  {
    if n > 0 {
      ReplayPathHasName(res, downloadTo, attempt, n - 1);
    }
  }

  /**
   * A failing `os.stat` is retried with `filepath` already set, so when the
   * next pass gets no info the resource keeps the path of a file that was
   * never confirmed, and `to_node` will list it.
   */
  lemma StatFailureKeepsPath(res: VideoResource, downloadTo: string, attempt: nat -> VideoAttempt, id: string, title: string)
    requires attempt(0) == Extracted(id, title, StatFailed) && attempt(1) == Swallowed
    ensures Retries(attempt(0)) && !Retries(attempt(1))
    ensures Replay(res, downloadTo, attempt, 2).filepath == Some(VideoPath(downloadTo, id))
  {
    LastInfoWins(res, downloadTo, attempt, 2, 0);
  }

  /**
   * When the last pass that got the info found an empty file, no path is
   * left and `to_node` emits nothing.
   */
  lemma EmptyFileNoNode(res: VideoResource, downloadTo: string, attempt: nat -> VideoAttempt, n: nat, j: nat,
                        subtitles: Option<SubtitleInfo>)
    requires j < n && attempt(j).Extracted? && attempt(j).stat == Size(0)
    requires forall i :: j < i < n ==> !attempt(i).Extracted?
    ensures ToNode(Replay(res, downloadTo, attempt, n), subtitles).None?
  {
    LastInfoWins(res, downloadTo, attempt, n, j);
  }

  /** What `get_video_info` gave `subtitles_dict`: the video's id and, if present, its subtitle languages. */
  datatype SubtitleInfo = SubtitleInfo(id: string, languages: Option<seq<string>>)

  /** `subtitles_dict`: one subtitle file per language, none when the info is missing or has no subtitles. */
  function SubtitlesDict(info: Option<SubtitleInfo>): (r: seq<Tree.FileRef>)
    ensures info.None? || info.value.languages.None? ==> r == []
    ensures info.Some? && info.value.languages.Some? ==>
      && |r| == |info.value.languages.value|
      && forall i :: 0 <= i < |r| ==> r[i] == Tree.SubtitleFile(info.value.id, info.value.languages.value[i])
  {
    match info
    case None => []
    case Some(SubtitleInfo(id, None)) => []
    case Some(SubtitleInfo(id, Some(langs))) =>
      seq(|langs|, i requires 0 <= i < |langs| => Tree.SubtitleFile(id, langs[i]))
  }

  /**
   * `YouTubeResource.to_node`: a video node exactly when a file path is set;
   * its first file is the video, followed by the subtitles, and its title is
   * the resource's name, else the downloaded title.
   */
  function ToNode(res: VideoResource, subtitles: Option<SubtitleInfo>): (r: Option<Tree.TreeNode>)
    ensures r.Some? <==> res.filepath.Some?
    ensures r.Some? ==>
      && r.value.kind == Tree.VideoKind
      && r.value.sourceId == res.sourceId
      && r.value.language == res.lang
      && r.value.author == Tree.DefaultAuthor
      && r.value.files == [Tree.PathFile(Tree.VideoKind, res.filepath.value)] + SubtitlesDict(subtitles)
      && r.value.children == []
    ensures r.Some? && res.name.Some? ==> r.value.title == res.name.value
    ensures r.Some? && res.name.None? && res.filename.Some? ==> r.value.title == res.filename.value
  {
    match res.filepath
    case None => None
    case Some(path) =>
      var title := match res.name case Some(n) => n case None => res.filename.GetOr("");
      Some(Tree.TreeNode(Tree.VideoKind, res.sourceId, title, Some(""), res.lang, None, Tree.DefaultAuthor,
        [Tree.PathFile(Tree.VideoKind, path)] + SubtitlesDict(subtitles), []))
  }

  /**
   * For a freshly constructed resource, whatever the passes do, a node is
   * emitted exactly when the last pass with info found a non-empty file.
   */
  lemma FreshDownloadNode(res: VideoResource, downloadTo: string, attempt: nat -> VideoAttempt, n: nat,
                          subtitles: Option<SubtitleInfo>)
    requires res.filepath.None? && res.filename.None?
    ensures var r := Replay(res, downloadTo, attempt, n);
      && (ToNode(r, subtitles).Some? ==> r.filename.Some?)
      && ((forall i :: 0 <= i < n ==> !attempt(i).Extracted?) ==> ToNode(r, subtitles).None?)
  {
    ReplayPathHasName(res, downloadTo, attempt, n);
    if forall i :: 0 <= i < n ==> !attempt(i).Extracted? {
      ReplayWithoutInfo(res, downloadTo, attempt, n);
    }
  }
}
