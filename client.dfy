/**
 * The two helpers of the page script (public/app.js) that shape what the
 * user sees and sends back: the duration text, and the `<option>` built for
 * each offered rendition, whose value becomes the `format` parameter of
 * the download request.
 */
module ClientView {
  import Text
  import Duration
  import Renditions
  import ServerConfig
  import DownloadPlan
  import FileNames
  import opened Opt

  /** The JavaScript values the page's `formatDuration` can be handed. */
  datatype JsValue = JsString(s: string) | JsNumber(n: nat) | JsUndefined

  /**
   * `formatDuration` of the page: a string is shown as it is, a falsy value
   * (0, undefined) as nothing, a number of seconds as `m:ss`.
   */
  function FormatDuration(v: JsValue): (text: string)
    ensures v.JsString? ==> text == v.s
    ensures v.JsUndefined? || v == JsNumber(0) ==> text == ""
    ensures v.JsNumber? && v.n > 0 ==> Duration.ParseDuration(text) == Some(v.n)
  {
    match v
    case JsString(s) => s
    case JsUndefined => ""
    case JsNumber(n) =>
      if n == 0 then ""
      else
        var text := Text.NatToString(n / 60) + ":" + Text.PadStart(Text.NatToString(n % 60), 2, '0');
        assert text == Duration.FormatDuration(Duration.Finite(n));
        Duration.FormatParseRoundTrip(n);
        text
  }

  /** For a positive number of seconds the page writes exactly what the server writes. */
  lemma PageMatchesServer(n: nat)
    requires n > 0
    ensures FormatDuration(JsNumber(n)) == Duration.FormatDuration(Duration.Finite(n))
  {
  }

  /** Zero seconds: the server writes `0:00`, the page shows nothing. */
  lemma ZeroDiffers()
    ensures FormatDuration(JsNumber(0)) == ""
    ensures Duration.FormatDuration(Duration.Finite(0)) != ""
  {
  }

  /** One entry of the format list. */
  datatype SelectOption = SelectOption(value: string, text: string)

  /**
   * The option for a rendition: value `ext` (or `audio` without one) for
   * height 0, the decimal height otherwise; the text is the rendition's label.
   */
  function OptionFor(r: Renditions.Rendition): (opt: SelectOption)
    ensures opt.text == r.caption
  {
    var value := if r.height == 0 then (if r.ext != "" then r.ext else "audio") else Text.IntToString(r.height);
    SelectOption(value, r.caption)
  }

  /** The audio-only entry's option asks the server for its audio branch. */
  lemma AudioOptionSelectsAudio()
    ensures OptionFor(Renditions.AUDIO_ONLY).value == DownloadPlan.AUDIO_FORMAT
  {
  }

  /** A video entry's option value is read back by the server as exactly its height. */
  lemma VideoOptionRoundTrips(cfg: ServerConfig.Config, r: Renditions.Rendition)
    requires r.height > 0
    ensures OptionFor(r).value != DownloadPlan.AUDIO_FORMAT
    ensures DownloadPlan.SelectedHeight(cfg, OptionFor(r).value) == r.height
  {
    var h: nat := r.height;
    var value := OptionFor(r).value;
    assert value == Text.NatToString(h);
    Text.ParseIntOfNatToString(h);
    assert Text.IsDigit(value[0]) && !Text.IsDigit(DownloadPlan.AUDIO_FORMAT[0]);
  }

  /**
   * Choosing the i-th offered entry downloads what it names: the last entry
   * the audio stream, any other the video stream up to its height, saved as
   * `<title>-<label>.mp4`.
   */
  lemma OptionSelectsRendition(fs: seq<Renditions.RawFormat>, i: nat, cfg: ServerConfig.Config, title: Option<string>)
    requires i < |Renditions.Formats(fs)|
    ensures var r := Renditions.Formats(fs)[i];
      var plan := DownloadPlan.PlanDownload(cfg, OptionFor(r).value, title);
      if i == |Renditions.Formats(fs)| - 1 then
        plan.contentType == "audio/mp4"
        && plan.fileName == FileNames.SanitizeFileName(title) + ".m4a"
      else
        r.height > 0
        && plan.contentType == "video/mp4"
        && plan.fileName == FileNames.SanitizeFileName(title) + "-" + r.caption + ".mp4"
        && plan.flags == DownloadPlan.DownloadFlags(DownloadPlan.VideoSelector(r.height), cfg)
  {
    var all := Renditions.Formats(fs);
    Renditions.FormatsEndWithAudioOnly(fs);
    if i == |all| - 1 {
      AudioOptionSelectsAudio();
    } else {
      Renditions.FormatsVideoEntries(fs);
      var h: nat := all[i].height;
      assert all[i] == Renditions.VideoEntry(h);
      VideoOptionPlan(cfg, h, title);
    }
  }

  /** The plan for the option of the video entry of height h. */
  lemma VideoOptionPlan(cfg: ServerConfig.Config, h: nat, title: Option<string>)
    requires h > 0
    ensures var r := Renditions.VideoEntry(h);
      var plan := DownloadPlan.PlanDownload(cfg, OptionFor(r).value, title);
      plan.contentType == "video/mp4"
      && plan.fileName == FileNames.SanitizeFileName(title) + "-" + r.caption + ".mp4"
      && plan.flags == DownloadPlan.DownloadFlags(DownloadPlan.VideoSelector(h), cfg)
  {
    var r := Renditions.VideoEntry(h);
    VideoOptionRoundTrips(cfg, r);
    var safe := FileNames.SanitizeFileName(title);
    var digits := Text.NatToString(h);
    assert r.caption == digits + "p";
    HeightInName(safe, digits);
  }

  lemma HeightInName(safe: string, digits: string)
    ensures safe + "-" + digits + "p" + ".mp4" == safe + "-" + (digits + "p") + ".mp4"
  {
    var prefix := safe + "-";
    assert prefix + digits + "p" == prefix + (digits + "p");
  }

  /** The options of one list have pairwise distinct values, so a chosen value names one entry. */
  lemma OptionValuesDistinct(fs: seq<Renditions.RawFormat>)
    ensures var all := Renditions.Formats(fs);
      forall i, j :: 0 <= i < j < |all| ==> OptionFor(all[i]).value != OptionFor(all[j]).value
  {
    var all := Renditions.Formats(fs);
    Renditions.FormatsEndWithAudioOnly(fs);
    Renditions.FormatsOrderedAndDistinct(fs);
    forall i, j | 0 <= i < j < |all| ensures OptionFor(all[i]).value != OptionFor(all[j]).value {
      var hi: nat := all[i].height;
      assert hi > 0;
      if j == |all| - 1 {
        assert Text.IsDigit(OptionFor(all[i]).value[0]);
        assert OptionFor(all[j]).value == "audio";
      } else {
        var hj: nat := all[j].height;
        assert hj > 0 && hi > hj;
        Text.NatToStringInjective(hi, hj);
      }
    }
  }
}
