/**
 * The rendition selector (`extractFormats`, server.js): turns the format
 * records reported by the extractor into the list offered to the user, one
 * entry per video height, highest first, followed by an audio-only entry.
 */
module Renditions {
  import opened Opt
  import Text

  /**
   * One format record as reported by the extractor. `height` is None when
   * `Number(f?.height)` is not a finite number (missing field, NaN); `vcodec`
   * is None when the field is missing or null.
   */
  datatype RawFormat = RawFormat(height: Option<int>, vcodec: Option<string>)

  /** One choice offered to the user; height 0 marks the audio-only choice. */
  datatype Rendition = Rendition(caption: string, height: int, ext: string)

  const AUDIO_ONLY := Rendition("Audio Only", 0, "audio")

  /** `String(f?.vcodec || 'none')`: a missing or empty codec reads as "none". */
  function Codec(f: RawFormat): string {
    if f.vcodec.None? || f.vcodec.value == "" then "none" else f.vcodec.value
  }

  /** A record that carries a video track with a positive, finite height. */
  predicate Usable(f: RawFormat) {
    f.height.Some? && f.height.value > 0 && Codec(f) != "none"
  }

  /** The label `${height}p`. */
  function HeightLabel(h: nat): string {
    Text.NatToString(h) + "p"
  }

  lemma HeightLabelInjective(a: nat, b: nat)
    ensures HeightLabel(a) == HeightLabel(b) ==> a == b
  {
    if HeightLabel(a) == HeightLabel(b) {
      assert Text.NatToString(a) == HeightLabel(a)[..|HeightLabel(a)| - 1];
      assert Text.NatToString(b) == HeightLabel(b)[..|HeightLabel(b)| - 1];
      Text.NatToStringInjective(a, b);
    }
  }

  function VideoEntry(h: nat): Rendition {
    Rendition(HeightLabel(h), h, "mp4")
  }

  function Labels(rs: seq<Rendition>): set<string> {
    set r | r in rs :: r.caption
  }

  /** Every entry is a video entry: positive height, label `<h>p`, container mp4. */
  predicate AllVideo(rs: seq<Rendition>) {
    forall r :: r in rs ==> r.height > 0 && r == VideoEntry(r.height)
  }

  predicate DistinctHeights(rs: seq<Rendition>) {
    forall i, j :: 0 <= i < j < |rs| ==> rs[i].height != rs[j].height
  }

  predicate NonIncreasing(rs: seq<Rendition>) {
    forall i, j :: 0 <= i < j < |rs| ==> rs[i].height >= rs[j].height
  }

  predicate StrictlyDecreasing(rs: seq<Rendition>) {
    forall i, j :: 0 <= i < j < |rs| ==> rs[i].height > rs[j].height
  }

  /** The heights of the usable records among `fs`. */
  function UsableHeights(fs: seq<RawFormat>): set<int> {
    set j | 0 <= j < |fs| && Usable(fs[j]) :: fs[j].height.value
  }

  /**
   * The loop of `extractFormats`: usable records in input order, a record
   * dropped when its label was already seen.
   */
  function Candidates(fs: seq<RawFormat>): seq<Rendition> {
    if fs == [] then []
    else
      var prev := Candidates(fs[..|fs| - 1]);
      var f := fs[|fs| - 1];
      if Usable(f) && HeightLabel(f.height.value) !in Labels(prev)
      then prev + [VideoEntry(f.height.value)]
      else prev
  }

  /** Putting an entry no lower than the head in front keeps a list non-increasing. */
  lemma ConsNonIncreasing(a: Rendition, s: seq<Rendition>)
    ensures NonIncreasing(s) && (s == [] || s[0].height <= a.height) ==> NonIncreasing([a] + s)
  {
    if NonIncreasing(s) && (s == [] || s[0].height <= a.height) {
      var res := [a] + s;
      forall i, j | 0 <= i < j < |res| ensures res[i].height >= res[j].height {
        assert res[j] == s[j - 1];
        if i > 0 {
          assert res[i] == s[i - 1];
        } else {
          assert s[0].height >= s[j - 1].height || j == 1;
        }
      }
    }
  }

  /**
   * Inserts `x` after every entry at least as high: the place a stable sort
   * by descending height gives an element that comes after those entries.
   */
  function InsertByHeight(x: Rendition, sorted: seq<Rendition>): (r: seq<Rendition>)
    ensures multiset(r) == multiset(sorted) + multiset{x}
    ensures |r| == |sorted| + 1
    ensures r[0] == if sorted == [] || sorted[0].height < x.height then x else sorted[0]
    ensures NonIncreasing(sorted) ==> NonIncreasing(r)
  {
    if sorted == [] then [x]
    else if sorted[0].height >= x.height then
      assert sorted == [sorted[0]] + sorted[1..];
      var ins := InsertByHeight(x, sorted[1..]);
      assert NonIncreasing(sorted) ==> NonIncreasing(sorted[1..]);
      ConsNonIncreasing(sorted[0], ins);
      [sorted[0]] + ins
    else
      ConsNonIncreasing(x, sorted);
      [x] + sorted
  }

  /** `result.sort((a, b) => b.height - a.height)`, a stable sort, highest first. */
  function SortByHeightDesc(rs: seq<Rendition>): (r: seq<Rendition>)
    ensures multiset(r) == multiset(rs)
    ensures NonIncreasing(r)
  {
    if rs == [] then []
    else
      assert rs == rs[..|rs| - 1] + [rs[|rs| - 1]];
      InsertByHeight(rs[|rs| - 1], SortByHeightDesc(rs[..|rs| - 1]))
  }

  /** What `extractFormats(fs)` returns. */
  function Formats(fs: seq<RawFormat>): seq<Rendition> {
    SortByHeightDesc(Candidates(fs)) + [AUDIO_ONLY]
  }

  /** `extractFormats`: one pass with a set of seen labels, a sort, then the audio-only entry. */
  method ExtractFormats(formats: seq<RawFormat>) returns (result: seq<Rendition>)
    ensures result == Formats(formats)
  {
    var seen: set<string> := {};
    result := [];
    for i := 0 to |formats|
      invariant result == Candidates(formats[..i])
      invariant seen == Labels(result)
    {
      assert formats[..i + 1][..i] == formats[..i];
      var f := formats[i];
      var height := f.height;
      var vcodec := if f.vcodec.None? || f.vcodec.value == "" then "none" else f.vcodec.value;
      if height.None? || height.value <= 0 || vcodec == "none" {
        continue;
      }
      var heightLabel := HeightLabel(height.value);
      if heightLabel in seen {
        continue;
      }
      seen := seen + {heightLabel};
      result := result + [Rendition(heightLabel, height.value, "mp4")];
    }
    assert formats[..|formats|] == formats;
    result := SortByHeightDesc(result);
    result := result + [AUDIO_ONLY];
  }

  // -----------------------------------------------------------------------
  // What the selected list is

  /** The loop keeps exactly one video entry per usable height. */
  lemma {:induction false} CandidatesShape(fs: seq<RawFormat>)
    ensures AllVideo(Candidates(fs))
    ensures DistinctHeights(Candidates(fs))
    ensures (set r | r in Candidates(fs) :: r.height) == UsableHeights(fs)
  {
    if fs != [] {
      var init := fs[..|fs| - 1];
      var prev := Candidates(init);
      var f := fs[|fs| - 1];
      CandidatesShape(init);
      assert UsableHeights(fs) == UsableHeights(init) + (if Usable(f) then {f.height.value} else {}) by {
        forall h | h in UsableHeights(fs) ensures h in UsableHeights(init) || (Usable(f) && h == f.height.value) {
          var j :| 0 <= j < |fs| && Usable(fs[j]) && fs[j].height.value == h;
          if j < |fs| - 1 { assert fs[j] == init[j]; }
        }
        forall h | h in UsableHeights(init) ensures h in UsableHeights(fs) {
          var j :| 0 <= j < |init| && Usable(init[j]) && init[j].height.value == h;
          assert fs[j] == init[j];
        }
        if Usable(f) {
          assert f == fs[|fs| - 1];
        }
      }
      if Usable(f) {
        var h: nat := f.height.value;
        if HeightLabel(h) !in Labels(prev) {
          forall i | 0 <= i < |prev| ensures prev[i].height != h {
            assert prev[i] in prev;
            assert prev[i].caption in Labels(prev);
          }
        } else {
          var r :| r in prev && r.caption == HeightLabel(h);
          HeightLabelInjective(r.height, h);
        }
      }
    }
  }

  /** Putting an entry higher than all others in front keeps a list strictly decreasing. */
  lemma ConsStrict(a: Rendition, s: seq<Rendition>)
    requires StrictlyDecreasing(s)
    requires forall r :: r in s ==> r.height < a.height
    ensures StrictlyDecreasing([a] + s)
  {
    var res := [a] + s;
    forall i, j | 0 <= i < j < |res| ensures res[i].height > res[j].height {
      assert res[j] == s[j - 1];
      if i > 0 {
        assert res[i] == s[i - 1];
      }
    }
  }

  /** Inserting a height not yet present into a strictly decreasing list keeps it strictly decreasing. */
  lemma {:induction false} InsertStrict(x: Rendition, sorted: seq<Rendition>)
    requires StrictlyDecreasing(sorted)
    requires forall r :: r in sorted ==> r.height != x.height
    ensures StrictlyDecreasing(InsertByHeight(x, sorted))
  {
    if sorted == [] {
    } else if sorted[0].height >= x.height {
      var tail := sorted[1..];
      InsertStrict(x, tail);
      var ins := InsertByHeight(x, tail);
      forall r | r in ins ensures r.height < sorted[0].height {
        assert r in multiset(ins);
        if r != x {
          assert r in multiset(tail);
          var k :| 0 <= k < |tail| && tail[k] == r;
          assert sorted[k + 1] == r;
        }
      }
      ConsStrict(sorted[0], ins);
    } else {
      forall r | r in sorted ensures r.height < x.height {
        var k :| 0 <= k < |sorted| && sorted[k] == r;
        assert k == 0 || sorted[0].height > sorted[k].height;
      }
      ConsStrict(x, sorted);
    }
  }

  /** Sorting a list whose heights are distinct leaves them strictly decreasing. */
  lemma {:induction false} SortStrict(rs: seq<Rendition>)
    requires DistinctHeights(rs)
    ensures StrictlyDecreasing(SortByHeightDesc(rs))
  {
    if rs != [] {
      var init, x := rs[..|rs| - 1], rs[|rs| - 1];
      assert DistinctHeights(init) by {
        forall i, j | 0 <= i < j < |init| ensures init[i].height != init[j].height {
          assert init[i] == rs[i] && init[j] == rs[j];
        }
      }
      SortStrict(init);
      var sorted := SortByHeightDesc(init);
      forall r | r in sorted ensures r.height != x.height {
        assert r in multiset(init);
        var k :| 0 <= k < |init| && init[k] == r;
        assert rs[k] == r;
      }
      InsertStrict(x, sorted);
    }
  }

  /** The sorted video entries: one per usable height, strictly decreasing. */
  lemma VideosShape(fs: seq<RawFormat>)
    ensures AllVideo(SortByHeightDesc(Candidates(fs)))
    ensures StrictlyDecreasing(SortByHeightDesc(Candidates(fs)))
    ensures (set r | r in SortByHeightDesc(Candidates(fs)) :: r.height) == UsableHeights(fs)
  {
    var cands := Candidates(fs);
    var videos := SortByHeightDesc(cands);
    CandidatesShape(fs);
    SortStrict(cands);
    assert forall r :: r in videos <==> r in cands by {
      forall r ensures r in videos <==> r in cands {
        assert r in videos <==> r in multiset(videos);
        assert r in cands <==> r in multiset(cands);
      }
    }
  }

  /**
   * The selected list is never empty and ends with the audio-only entry,
   * which is its only entry of height 0, whatever the input (even empty).
   */
  lemma FormatsEndWithAudioOnly(fs: seq<RawFormat>)
    ensures |Formats(fs)| >= 1
    ensures Formats(fs)[|Formats(fs)| - 1] == AUDIO_ONLY
    ensures forall i :: 0 <= i < |Formats(fs)| - 1 ==> Formats(fs)[i].height > 0
  {
    var videos := SortByHeightDesc(Candidates(fs));
    var r := Formats(fs);
    VideosShape(fs);
    forall i | 0 <= i < |r| - 1 ensures r[i].height > 0 {
      assert r[i] == videos[i];
      assert videos[i] in videos;
    }
  }

  /**
   * Every entry before the last is a video entry (label `<h>p`, container
   * mp4) for the height of a usable input record, and every usable input
   * height is offered.
   */
  lemma FormatsVideoEntries(fs: seq<RawFormat>)
    ensures forall i :: 0 <= i < |Formats(fs)| - 1 ==>
      Formats(fs)[i].height > 0 && Formats(fs)[i] == VideoEntry(Formats(fs)[i].height)
    ensures forall i :: 0 <= i < |Formats(fs)| - 1 ==> Formats(fs)[i].height in UsableHeights(fs)
    ensures forall h :: h in UsableHeights(fs) ==>
      exists i :: 0 <= i < |Formats(fs)| - 1 && Formats(fs)[i].height == h
  {
    var videos := SortByHeightDesc(Candidates(fs));
    var r := Formats(fs);
    VideosShape(fs);
    forall i | 0 <= i < |r| - 1
      ensures r[i].height > 0 && r[i] == VideoEntry(r[i].height) && r[i].height in UsableHeights(fs)
    {
      assert r[i] == videos[i];
      assert videos[i] in videos;
    }
    forall h | h in UsableHeights(fs) ensures exists i :: 0 <= i < |r| - 1 && r[i].height == h {
      var v :| v in videos && v.height == h;
      var i :| 0 <= i < |videos| && videos[i] == v;
      assert r[i] == v;
    }
  }

  /**
   * The video entries are in strictly decreasing height order, and all
   * labels of the list, the audio-only one included, are pairwise distinct.
   */
  lemma FormatsOrderedAndDistinct(fs: seq<RawFormat>)
    ensures forall i, j :: 0 <= i < j < |Formats(fs)| - 1 ==> Formats(fs)[i].height > Formats(fs)[j].height
    ensures forall i, j :: 0 <= i < j < |Formats(fs)| ==> Formats(fs)[i].caption != Formats(fs)[j].caption
  {
    var videos := SortByHeightDesc(Candidates(fs));
    var r := Formats(fs);
    VideosShape(fs);
    forall i, j | 0 <= i < j < |r| - 1 ensures r[i].height > r[j].height {
      assert r[i] == videos[i] && r[j] == videos[j];
    }
    forall i, j | 0 <= i < j < |r| ensures r[i].caption != r[j].caption {
      assert r[i] == videos[i] && videos[i] in videos;
      var hi: nat := r[i].height;
      assert r[i].caption == HeightLabel(hi);
      if j < |r| - 1 {
        assert r[j] == videos[j] && videos[j] in videos;
        var hj: nat := r[j].height;
        assert r[j].caption == HeightLabel(hj);
        assert hi > hj;
        HeightLabelInjective(hi, hj);
      } else {
        assert r[j] == AUDIO_ONLY;
        assert Text.IsDigit(r[i].caption[0]);
        assert AUDIO_ONLY.caption[0] == 'A';
      }
    }
  }

  /** The labels of the worked example below, spelled out. */
  lemma ExampleLabels()
    ensures HeightLabel(1080) == "1080p" && HeightLabel(480) == "480p"
  {
    assert Text.NatToString(1) == "1";
    assert Text.NatToString(10) == "10";
    assert Text.NatToString(108) == "108";
    assert Text.NatToString(1080) == "1080";
    assert Text.NatToString(4) == "4";
    assert Text.NatToString(48) == "48";
    assert Text.NatToString(480) == "480";
  }

  /**
   * The shape of the worked example [1080/avc1, 1080/avc1, 720/none,
   * 480/avc1], for any two heights hi > lo > 0, any codec and any height of
   * the codec-less record: the repeated record is kept once, the record
   * without video is dropped, and the result is hi, lo and the audio-only entry.
   */
  lemma WorkedExample(hi: nat, mid: int, lo: nat, codec: string)
    requires hi > lo > 0
    requires codec != "" && codec != "none"
    ensures Formats([RawFormat(Some(hi), Some(codec)), RawFormat(Some(hi), Some(codec)),
                     RawFormat(Some(mid), Some("none")), RawFormat(Some(lo), Some(codec))])
         == [VideoEntry(hi), VideoEntry(lo), AUDIO_ONLY]
  {
    var top, dup, silent, low := RawFormat(Some(hi), Some(codec)), RawFormat(Some(hi), Some(codec)),
                                 RawFormat(Some(mid), Some("none")), RawFormat(Some(lo), Some(codec));
    var fs := [top, dup, silent, low];
    var e1, e2 := VideoEntry(hi), VideoEntry(lo);
    var one := [e1];
    assert Usable(top) && Usable(low) && !Usable(silent);
    assert Labels(one) == {HeightLabel(hi)};
    HeightLabelInjective(lo, hi);
    assert Candidates([top]) == one by {
      assert [top][..0] == [];
    }
    assert Candidates([top, dup]) == one by {
      assert [top, dup][..1] == [top];
    }
    assert Candidates([top, dup, silent]) == one by {
      assert [top, dup, silent][..2] == [top, dup];
    }
    var two := [e1, e2];
    assert HeightLabel(lo) !in Labels(one);
    assert Candidates(fs) == two by {
      assert fs[..3] == [top, dup, silent] && fs[3] == low;
      assert Candidates(fs) == one + [e2];
    }
    assert SortByHeightDesc(one) == one by {
      assert one[..0] == [];
    }
    assert InsertByHeight(e2, one) == two by {
      assert one[1..] == [];
    }
    assert SortByHeightDesc(two) == two by {
      assert two[..1] == one;
    }
    assert Formats(fs) == two + [AUDIO_ONLY];
    assert two + [AUDIO_ONLY] == [e1, e2, AUDIO_ONLY];
  }
}
