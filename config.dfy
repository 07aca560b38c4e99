/**
 * Process configuration of server.js: where the yt-dlp executable is taken
 * from, and how the configured credentials are added to every yt-dlp call.
 */
module ServerConfig {
  import Text

  /**
   * The values server.js reads from its environment once at start-up
   * (already trimmed): the default height, the fragment concurrency passed to
   * yt-dlp, an explicit yt-dlp path, a cookie file and a browser to read
   * cookies from; an empty string means "not configured".
   */
  datatype Config = Config(
    targetHeight: nat,
    concurrentFragments: int,
    ytDlpPath: string,
    cookies: string,
    cookiesFromBrowser: string)

  /** The values used when the environment sets nothing. */
  const DEFAULT_CONFIG := Config(1080, 8, "", "", "")

  datatype Platform = Win32 | OtherPlatform

  function ExecutableName(platform: Platform): string {
    if platform == Win32 then "yt-dlp.exe" else "yt-dlp"
  }

  function Separator(platform: Platform): string {
    if platform == Win32 then "\\" else "/"
  }

  /** `path.join(__dirname, 'node_modules', 'yt-dlp-exec', 'bin', <executable>)`. */
  function BundledPath(dir: string, platform: Platform): string {
    var sep := Separator(platform);
    dir + sep + "node_modules" + sep + "yt-dlp-exec" + sep + "bin" + sep + ExecutableName(platform)
  }

  /**
   * `resolveYtDlpBinaryPath`: the configured path if there is one, else the
   * copy bundled with the yt-dlp-exec package if that file exists
   * (`bundledExists`), else the bare executable name for a search-path lookup.
   */
  function ResolveYtDlpBinaryPath(cfg: Config, dir: string, platform: Platform, bundledExists: bool): (path: string)
    ensures path != ""
    ensures cfg.ytDlpPath != "" ==> path == cfg.ytDlpPath
    ensures cfg.ytDlpPath == "" ==> Text.EndsWith(path, ExecutableName(platform))
    ensures cfg.ytDlpPath == "" && bundledExists ==> Text.StartsWith(path, dir) && path != ExecutableName(platform)
    ensures cfg.ytDlpPath == "" && !bundledExists ==> path == ExecutableName(platform)
  {
    if cfg.ytDlpPath != "" then cfg.ytDlpPath
    else if bundledExists then
      var sep := Separator(platform);
      var path := BundledPath(dir, platform);
      var prefix := dir + sep + "node_modules" + sep + "yt-dlp-exec" + sep + "bin" + sep;
      assert path == prefix + ExecutableName(platform);
      assert path[..|dir|] == dir;
      path
    else ExecutableName(platform)
  }

  // -----------------------------------------------------------------------
  // Credentials

  /** A value of a yt-dlp option: a string, a number or a switch. */
  datatype FlagValue = Str(s: string) | Num(n: int) | Switch(on: bool)

  /** yt-dlp options by their camel-case names (`cookies`, `cookiesFromBrowser`, `format`, ...). */
  type Flags = map<string, FlagValue>

  /** Key `k` is present in `a` exactly when it is in `b`, with the same value. */
  predicate SameEntry(a: Flags, b: Flags, k: string) {
    (k in a <==> k in b) && (k in a ==> a[k] == b[k])
  }

  /**
   * `withAuthFlags`: a copy of the base options plus `cookies` when a cookie
   * file is configured, otherwise `cookiesFromBrowser` when a browser is
   * configured, otherwise nothing.
   */
  function WithAuthFlags(base: Flags, cfg: Config): (flags: Flags)
    ensures forall k :: k != "cookies" && k != "cookiesFromBrowser" ==> SameEntry(flags, base, k)
    ensures cfg.cookies != "" ==> "cookies" in flags && flags["cookies"] == Str(cfg.cookies)
    ensures cfg.cookies != "" ==> SameEntry(flags, base, "cookiesFromBrowser")
    ensures cfg.cookies == "" ==> SameEntry(flags, base, "cookies")
    ensures cfg.cookies == "" && cfg.cookiesFromBrowser != "" ==>
      "cookiesFromBrowser" in flags && flags["cookiesFromBrowser"] == Str(cfg.cookiesFromBrowser)
    ensures cfg.cookies == "" && cfg.cookiesFromBrowser == "" ==> flags == base
  {
    if cfg.cookies != "" then base["cookies" := Str(cfg.cookies)]
    else if cfg.cookiesFromBrowser != "" then base["cookiesFromBrowser" := Str(cfg.cookiesFromBrowser)]
    else base
  }

  /** Adding credentials only adds keys: the options' key set grows by the one key that was set. */
  lemma AuthFlagsKeys(base: Flags, cfg: Config)
    ensures WithAuthFlags(base, cfg).Keys ==
      base.Keys + (if cfg.cookies != "" then {"cookies"}
                   else if cfg.cookiesFromBrowser != "" then {"cookiesFromBrowser"}
                   else {})
  {
  }

  /** When both are configured, the cookie file wins and no browser directive is added. */
  lemma CookieFileWins(base: Flags, cfg: Config)
    requires cfg.cookies != "" && cfg.cookiesFromBrowser != ""
    requires "cookiesFromBrowser" !in base
    ensures "cookiesFromBrowser" !in WithAuthFlags(base, cfg)
    ensures WithAuthFlags(base, cfg)["cookies"] == Str(cfg.cookies)
  {
  }
}
