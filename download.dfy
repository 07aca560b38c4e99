/**
 * The decision half of `/api/download-stream` (server.js): from the request's
 * `url` and `format` parameters and the video title, what yt-dlp is asked to
 * produce (its options, above all the format selector) and under which
 * content type and file name the stream is sent.
 */
module DownloadPlan {
  import opened Opt
  import Text
  import FileNames
  import ServerConfig
  import Hosts
  import InfoErrors

  const AUDIO_FORMAT := "audio"
  const AUDIO_SELECTOR := "bestaudio[ext=m4a]/bestaudio/best"
  const MP4_WITH_SOUND := "[ext=mp4][acodec!=none][vcodec!=none]"
  const ANY_WITH_SOUND := "[acodec!=none][vcodec!=none]"
  const INVALID_URL_MESSAGE := "Please provide a valid YouTube URL."

  /** What the handler hands to yt-dlp and to the response headers. */
  datatype Plan = Plan(flags: ServerConfig.Flags, contentType: string, fileName: string)

  /** The handler either refuses the request or streams according to a plan. */
  datatype Outcome = Rejected(reply: InfoErrors.ErrorReply) | Stream(plan: Plan)

  // -----------------------------------------------------------------------
  // The `format` parameter

  /** `String(req.query.format || TARGET_HEIGHT)`: a missing or empty parameter becomes the default height. */
  function RequestedFormat(cfg: ServerConfig.Config, query: Option<string>): (fmt: string)
    ensures query.Some? && query.value != "" ==> fmt == query.value
    ensures query.None? || query.value == "" ==> Text.ParseInt(fmt) == Some(cfg.targetHeight as int)
  {
    if query.Some? && query.value != "" then query.value
    else
      Text.ParseIntOfNatToString(cfg.targetHeight);
      Text.NatToString(cfg.targetHeight)
  }

  /**
   * `Number.parseInt(fmt, 10)` if that is a positive number, otherwise the
   * configured default height.
   */
  function SelectedHeight(cfg: ServerConfig.Config, fmt: string): (h: nat)
    ensures var p := Text.ParseInt(fmt);
      if p.Some? && p.value > 0 then h == p.value else h == cfg.targetHeight
  {
    var parsed := Text.ParseInt(fmt);
    if parsed.Some? && parsed.value > 0 then parsed.value else cfg.targetHeight
  }

  // -----------------------------------------------------------------------
  // Format selectors

  /** `best[height<=h]`. */
  function HeightBound(h: nat): string {
    "best[height<=" + Text.NatToString(h) + "]"
  }

  /**
   * Best mp4 with sound up to height h, else best of any container with
   * sound up to h, else whatever is best.
   */
  function VideoSelector(h: nat): string {
    HeightBound(h) + MP4_WITH_SOUND + "/" + HeightBound(h) + ANY_WITH_SOUND + "/best"
  }

  /** The options common to both branches, around a format selector. */
  function StreamFlags(selector: string, cfg: ServerConfig.Config): ServerConfig.Flags {
    map[
      "format" := ServerConfig.Str(selector),
      "output" := ServerConfig.Str("-"),
      "noWarnings" := ServerConfig.Switch(true),
      "noPlaylist" := ServerConfig.Switch(true),
      "retries" := ServerConfig.Num(3),
      "fragmentRetries" := ServerConfig.Num(3),
      "extractorRetries" := ServerConfig.Num(1),
      "concurrentFragments" := ServerConfig.Num(cfg.concurrentFragments)]
  }

  /** The names of the options every download passes, besides the credentials. */
  const STREAM_KEYS: set<string> :=
    {"format", "output", "noWarnings", "noPlaylist", "retries", "fragmentRetries", "extractorRetries", "concurrentFragments"}

  /**
   * The options of a download: the selector, output to standard output, no
   * warnings, no playlist, bounded retries (3 for the download, 3 per
   * fragment, 1 for the extractor), the configured fragment concurrency, and
   * then the one credential that is configured, the cookie file first.
   * No other option is passed.
   */
  function DownloadFlags(selector: string, cfg: ServerConfig.Config): (flags: ServerConfig.Flags)
    ensures "format" in flags && flags["format"] == ServerConfig.Str(selector)
    ensures "output" in flags && flags["output"] == ServerConfig.Str("-")
    ensures "noWarnings" in flags && flags["noWarnings"] == ServerConfig.Switch(true)
    ensures "noPlaylist" in flags && flags["noPlaylist"] == ServerConfig.Switch(true)
    ensures "retries" in flags && flags["retries"] == ServerConfig.Num(3)
    ensures "fragmentRetries" in flags && flags["fragmentRetries"] == ServerConfig.Num(3)
    ensures "extractorRetries" in flags && flags["extractorRetries"] == ServerConfig.Num(1)
    ensures "concurrentFragments" in flags && flags["concurrentFragments"] == ServerConfig.Num(cfg.concurrentFragments)
    ensures cfg.cookies != "" ==> "cookies" in flags && flags["cookies"] == ServerConfig.Str(cfg.cookies)
    ensures cfg.cookies == "" && cfg.cookiesFromBrowser != "" ==>
      "cookiesFromBrowser" in flags && flags["cookiesFromBrowser"] == ServerConfig.Str(cfg.cookiesFromBrowser)
    ensures flags.Keys == STREAM_KEYS + (if cfg.cookies != "" then {"cookies"}
                                        else if cfg.cookiesFromBrowser != "" then {"cookiesFromBrowser"}
                                        else {})
  {
    var base := StreamFlags(selector, cfg);
    var flags := ServerConfig.WithAuthFlags(base, cfg);
    assert base.Keys == STREAM_KEYS;
    ServerConfig.AuthFlagsKeys(base, cfg);
    assert ServerConfig.SameEntry(flags, base, "format");
    assert ServerConfig.SameEntry(flags, base, "output");
    assert ServerConfig.SameEntry(flags, base, "noWarnings");
    assert ServerConfig.SameEntry(flags, base, "noPlaylist");
    assert ServerConfig.SameEntry(flags, base, "retries");
    assert ServerConfig.SameEntry(flags, base, "fragmentRetries");
    assert ServerConfig.SameEntry(flags, base, "extractorRetries");
    assert ServerConfig.SameEntry(flags, base, "concurrentFragments");
    flags
  }

  // -----------------------------------------------------------------------
  // The plan

  /**
   * The branch at server.js:192-221: `audio` streams the best m4a audio as
   * `<title>.m4a`; anything else streams video up to the selected height as
   * `<title>-<h>p.mp4`.
   */
  function PlanDownload(cfg: ServerConfig.Config, fmt: string, title: Option<string>): (plan: Plan)
    ensures fmt == AUDIO_FORMAT ==>
      plan.contentType == "audio/mp4"
      && plan.fileName == FileNames.SanitizeFileName(title) + ".m4a"
      && plan.flags == DownloadFlags(AUDIO_SELECTOR, cfg)
    ensures fmt != AUDIO_FORMAT ==>
      var h := SelectedHeight(cfg, fmt);
      plan.contentType == "video/mp4"
      && plan.fileName == FileNames.SanitizeFileName(title) + "-" + Text.NatToString(h) + "p" + ".mp4"
      && plan.flags == DownloadFlags(VideoSelector(h), cfg)
  {
    var safeTitle := FileNames.SanitizeFileName(title);
    var selector := if fmt == AUDIO_FORMAT then AUDIO_SELECTOR else VideoSelector(SelectedHeight(cfg, fmt));
    var flags := DownloadFlags(selector, cfg);
    if fmt == AUDIO_FORMAT then
      Plan(flags, "audio/mp4", safeTitle + ".m4a")
    else
      var h := SelectedHeight(cfg, fmt);
      Plan(flags, "video/mp4", safeTitle + "-" + Text.NatToString(h) + "p" + ".mp4")
  }

  /**
   * The whole decision of `/api/download-stream`: the `url` parameter,
   * trimmed, must be non-empty and its parsed host name (None when the URL
   * parser rejects it) must be allowed; otherwise a 400 is sent.
   */
  function HandleDownload(cfg: ServerConfig.Config, urlQuery: Option<string>, parsedHostname: Option<string>,
                          formatQuery: Option<string>, title: Option<string>): (outcome: Outcome)
    ensures outcome.Rejected? <==>
      Text.Trim(if urlQuery.Some? then urlQuery.value else "") == "" || !Hosts.IsValidYouTubeUrl(parsedHostname)
    ensures outcome.Rejected? ==> outcome.reply == InfoErrors.ErrorReply(400, INVALID_URL_MESSAGE)
    ensures outcome.Stream? ==> outcome.plan == PlanDownload(cfg, RequestedFormat(cfg, formatQuery), title)
  {
    var url := Text.Trim(if urlQuery.Some? then urlQuery.value else "");
    var fmt := RequestedFormat(cfg, formatQuery);
    if url == "" || !Hosts.IsValidYouTubeUrl(parsedHostname) then Rejected(InfoErrors.ErrorReply(400, INVALID_URL_MESSAGE))
    else Stream(PlanDownload(cfg, fmt, title))
  }

  // -----------------------------------------------------------------------
  // Properties

  /** No digit is a `/`. */
  lemma NumeralHasNoSlash(h: nat)
    ensures '/' !in Text.NatToString(h)
  {
    var s := Text.NatToString(h);
    forall i | 0 <= i < |s| ensures s[i] != '/' {
      assert Text.IsDigit(s[i]);
    }
  }

  /**
   * A video selector splits at `/` into exactly three alternatives: the
   * first two bounded by `height<=h`, the last plain `best`.
   */
  lemma SelectorShape(h: nat)
    ensures Text.SplitOn(VideoSelector(h), '/') ==
      [HeightBound(h) + MP4_WITH_SOUND, HeightBound(h) + ANY_WITH_SOUND, "best"]
  {
    var b := HeightBound(h);
    var first, second := b + MP4_WITH_SOUND, b + ANY_WITH_SOUND;
    NumeralHasNoSlash(h);
    assert '/' !in b by {
      assert b == "best[height<=" + Text.NatToString(h) + "]";
    }
    assert '/' !in MP4_WITH_SOUND && '/' !in ANY_WITH_SOUND && '/' !in "best";
    assert '/' !in first && '/' !in second;
    assert VideoSelector(h) == first + ['/'] + (second + ['/'] + "best");
    Text.SplitOnJoin(first, '/', second + ['/'] + "best");
    Text.SplitOnJoin(second, '/', "best");
    Text.SplitOnWithoutSep("best", '/');
  }

  /** Each bounded alternative starts with `best[height<=h]`. */
  lemma AlternativesBoundHeight(h: nat)
    ensures var parts := Text.SplitOn(VideoSelector(h), '/');
      |parts| == 3 && Text.StartsWith(parts[0], HeightBound(h)) && Text.StartsWith(parts[1], HeightBound(h))
  {
    SelectorShape(h);
    var b := HeightBound(h);
    assert (b + MP4_WITH_SOUND)[..|b|] == b;
    assert (b + ANY_WITH_SOUND)[..|b|] == b;
  }

  /** Without a `format` parameter the configured default height is used. */
  lemma DefaultFormatUsesTarget(cfg: ServerConfig.Config)
    ensures SelectedHeight(cfg, RequestedFormat(cfg, None)) == cfg.targetHeight
  {
  }

  /** A positive height written in decimal selects exactly that height, whatever follows its digits. */
  lemma NumeralSelectsHeight(cfg: ServerConfig.Config, h: nat, rest: string)
    requires h > 0
    requires rest == [] || !Text.IsDigit(rest[0])
    ensures SelectedHeight(cfg, Text.NatToString(h) + rest) == h
  {
    Text.ParseIntOfNumeral(h, rest);
  }

  /** A negative number, zero, or text that does not start with a number falls back to the default height. */
  lemma NonPositiveFallsBack(cfg: ServerConfig.Config, fmt: string)
    requires Text.ParseInt(fmt).None? || Text.ParseInt(fmt).value <= 0
    ensures SelectedHeight(cfg, fmt) == cfg.targetHeight
  {
  }

  /**
   * The `format` text is read as `parseInt` reads it: leading white space and
   * a `+` are skipped, so ` 720` and `+720p` select 720, while `-720` and `0`
   * select the default height.
   */
  lemma SignedNumeralSelectsHeight(cfg: ServerConfig.Config, w: string, sign: string, n: nat, rest: string)
    requires forall i :: 0 <= i < |w| ==> Text.IsWhitespace(w[i])
    requires sign == "" || sign == "+" || sign == "-"
    requires rest == [] || !Text.IsDigit(rest[0])
    ensures SelectedHeight(cfg, w + sign + Text.NatToString(n) + rest) == if sign == "-" || n == 0 then cfg.targetHeight else n
  {
    Text.ParseIntOfSignedNumeral(w, sign, n, rest);
  }

  /** A `format` with no digits after its white space and sign selects the default height. */
  lemma NoNumeralFallsBack(cfg: ServerConfig.Config, w: string, sign: string, rest: string)
    requires forall i :: 0 <= i < |w| ==> Text.IsWhitespace(w[i])
    requires sign == "+" || sign == "-" || sign == ""
    requires rest == [] || !Text.IsDigit(rest[0])
    requires sign == "" ==> rest == [] || (!Text.IsWhitespace(rest[0]) && rest[0] != '-' && rest[0] != '+')
    ensures SelectedHeight(cfg, w + sign + rest) == cfg.targetHeight
  {
    Text.ParseIntWithoutDigits(w, sign, rest);
  }

  /** The file name is never just an extension and holds no character a file system forbids. */
  lemma FileNameIsSafe(cfg: ServerConfig.Config, fmt: string, title: Option<string>)
    ensures var name := PlanDownload(cfg, fmt, title).fileName;
      FileNames.NoForbidden(name) && |name| > 4
  {
    var safe := FileNames.SanitizeFileName(title);
    SuffixesAreClean();
    if fmt == AUDIO_FORMAT {
      NoForbiddenConcat(safe, ".m4a");
    } else {
      var digits := Text.NatToString(SelectedHeight(cfg, fmt));
      DigitsAreClean(digits);
      NoForbiddenConcat(safe, "-");
      NoForbiddenConcat(safe + "-", digits);
      NoForbiddenConcat(safe + "-" + digits, "p");
      NoForbiddenConcat(safe + "-" + digits + "p", ".mp4");
    }
  }

  lemma DigitsAreClean(s: string)
    requires Text.AllDigits(s)
    ensures FileNames.NoForbidden(s)
  {
    forall i | 0 <= i < |s| ensures !FileNames.IsForbidden(s[i]) {
      var c := s[i];
      assert '0' <= c <= '9';
      assert c !in "<>:\"/\\|?*";
    }
  }

  lemma SuffixesAreClean()
    ensures FileNames.NoForbidden("-") && FileNames.NoForbidden(".m4a") && FileNames.NoForbidden("p") && FileNames.NoForbidden(".mp4")
  {
  }

  lemma NoForbiddenConcat(a: string, b: string)
    requires FileNames.NoForbidden(a)
    requires FileNames.NoForbidden(b)
    ensures FileNames.NoForbidden(a + b)
  {
    var c := a + b;
    forall i | 0 <= i < |c| ensures !FileNames.IsForbidden(c[i]) {
      if i < |a| { assert c[i] == a[i]; } else { assert c[i] == b[i - |a|]; }
    }
  }
}
