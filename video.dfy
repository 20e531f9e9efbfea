/** `getVideoFormats`: of the formats a video offers, keep the mp4 formats
    that carry video and a quality label, one per resolution, taking the
    first format of each resolution in the order offered. The URL check
    and the metadata fetch are inputs. */
module Video {
  import opened Common

  /** One entry of the fetched format list. */
  datatype Format = Format(
    itag: int,
    container: Option<string>,
    hasVideo: bool,
    hasAudio: bool,
    qualityLabel: Option<string>,
    contentLength: Option<string>)

  /** One entry of the response. */
  datatype FormatView = FormatView(
    itag: int,
    resolution: string,
    container: Option<string>,
    hasAudio: bool,
    hasVideo: bool,
    size: Option<string>)

  /** What a successful fetch returns. */
  datatype VideoInfo = VideoInfo(title: string, formats: seq<Format>)

  datatype VideoFormats = VideoFormats(title: string, formats: seq<FormatView>)

  datatype VideoError = InvalidUrl | FetchFailed

  /** The first filter: mp4, with video, with a non-empty quality label. */
  predicate Qualifies(f: Format) {
    f.container == Some("mp4") && f.hasVideo && Truthy(f.qualityLabel)
  }

  function Resolution(f: Format): string {
    f.qualityLabel.GetOr("")
  }

  /** The response entry built from a format. */
  function View(f: Format): FormatView {
    FormatView(f.itag, Resolution(f), f.container, f.hasAudio, f.hasVideo, f.contentLength)
  }

  /** The entry of a qualifying format is an mp4 entry with video whose
      resolution is the format's non-empty quality label; itag, audio flag
      and size are copied. */
  lemma ViewOfQualifying(f: Format)
    requires Qualifies(f)
    ensures View(f).container == Some("mp4") && View(f).hasVideo
    ensures View(f).resolution == f.qualityLabel.value && View(f).resolution != ""
    ensures View(f).itag == f.itag && View(f).hasAudio == f.hasAudio && View(f).size == f.contentLength
  {
  }

  function Resolutions(views: seq<FormatView>): (r: seq<string>)
    ensures |r| == |views|
    ensures forall k :: 0 <= k < |views| ==> r[k] == views[k].resolution
  {
    if views == [] then [] else [views[0].resolution] + Resolutions(views[1..])
  }

  /** The response built from the first `n` formats: each qualifying format
      whose resolution is not yet in the response is appended. */
  function Dedup(formats: seq<Format>, n: nat): (r: seq<FormatView>)
    requires n <= |formats|
    ensures |r| <= n
    ensures forall k :: 0 <= k < |r| ==>
      r[k].container == Some("mp4") && r[k].hasVideo && r[k].resolution != ""
  {
    if n == 0 then []
    else
      var prev := Dedup(formats, n - 1);
      var f := formats[n - 1];
      if Qualifies(f) && Resolution(f) !in Resolutions(prev) then prev + [View(f)] else prev
  }

  function UniqueFormats(formats: seq<Format>): seq<FormatView> {
    Dedup(formats, |formats|)
  }

  /** `formats[i]` qualifies and no earlier qualifying format has its
      resolution. */
  predicate IsFirstOfResolution(formats: seq<Format>, i: int) {
    && 0 <= i < |formats|
    && Qualifies(formats[i])
    && forall j :: 0 <= j < i ==> !(Qualifies(formats[j]) && Resolution(formats[j]) == Resolution(formats[i]))
  }

  /** The input position each response entry was built from. */
  ghost function Origins(formats: seq<Format>, n: nat): (idx: seq<nat>)
    requires n <= |formats|
    ensures |idx| == |Dedup(formats, n)|
    ensures forall k :: 0 <= k < |idx| ==> idx[k] < n && Dedup(formats, n)[k] == View(formats[idx[k]])
  {
    if n == 0 then []
    else
      var prev := Origins(formats, n - 1);
      var f := formats[n - 1];
      if Qualifies(f) && Resolution(f) !in Resolutions(Dedup(formats, n - 1)) then prev + [n - 1] else prev
  }

  /** Every qualifying resolution among the first `n` formats is in the
      response. */
  lemma {:induction false} DedupCovers(formats: seq<Format>, n: nat)
    requires n <= |formats|
    ensures forall j :: 0 <= j < n && Qualifies(formats[j]) ==> Resolution(formats[j]) in Resolutions(Dedup(formats, n))
  {
    if n > 0 {
      DedupCovers(formats, n - 1);
      var prev := Dedup(formats, n - 1);
      var f := formats[n - 1];
      if Qualifies(f) && Resolution(f) !in Resolutions(prev) {
        assert Resolutions(prev + [View(f)]) == Resolutions(prev) + [Resolution(f)];
      }
    }
  }

  /** Each response entry comes from the first format of its resolution. */
  lemma {:induction false} OriginsAreFirsts(formats: seq<Format>, n: nat)
    requires n <= |formats|
    ensures forall k :: 0 <= k < |Origins(formats, n)| ==> IsFirstOfResolution(formats, Origins(formats, n)[k])
  {
    if n > 0 {
      OriginsAreFirsts(formats, n - 1);
      var f := formats[n - 1];
      if Qualifies(f) && Resolution(f) !in Resolutions(Dedup(formats, n - 1)) {
        DedupCovers(formats, n - 1);
        assert IsFirstOfResolution(formats, n - 1);
      }
    }
  }

  /** Response entries follow input order. */
  lemma {:induction false} OriginsIncrease(formats: seq<Format>, n: nat)
    requires n <= |formats|
    ensures forall a, b :: 0 <= a < b < |Origins(formats, n)| ==> Origins(formats, n)[a] < Origins(formats, n)[b]
  {
    if n > 0 {
      OriginsIncrease(formats, n - 1);
      var idx := Origins(formats, n - 1);
      if Origins(formats, n) != idx {
        assert Origins(formats, n) == idx + [n - 1];
        assert forall k :: 0 <= k < |idx| ==> idx[k] < n - 1;
      }
    }
  }

  /** The first format of every qualifying resolution is in the response. */
  lemma {:induction false} FirstsAreOrigins(formats: seq<Format>, n: nat)
    requires n <= |formats|
    ensures forall i :: 0 <= i < n && IsFirstOfResolution(formats, i) ==> i in Origins(formats, n)
  {
    if n > 0 {
      FirstsAreOrigins(formats, n - 1);
      OriginsGrow(formats, n);
      if IsFirstOfResolution(formats, n - 1) {
        FirstIsAppended(formats, n);
      }
    }
  }

  /** Looking at one more format only appends to the origins. */
  lemma OriginsGrow(formats: seq<Format>, n: nat)
    requires 0 < n <= |formats|
    ensures forall i :: i in Origins(formats, n - 1) ==> i in Origins(formats, n)
  {
  }

  /** No response entry so far has the resolution of a format that is the
      first of its resolution, so that format is appended. */
  lemma FirstIsAppended(formats: seq<Format>, n: nat)
    requires 0 < n <= |formats| && IsFirstOfResolution(formats, n - 1)
    ensures n - 1 in Origins(formats, n)
  {
    var prev := Dedup(formats, n - 1);
    var idx := Origins(formats, n - 1);
    var f := formats[n - 1];
    OriginsAreFirsts(formats, n - 1);
    forall k | 0 <= k < |prev| ensures Resolutions(prev)[k] != Resolution(f) {
      assert prev[k] == View(formats[idx[k]]);
      assert IsFirstOfResolution(formats, idx[k]);
    }
    assert Origins(formats, n) == idx + [n - 1];
  }

  /** The response is exactly the first format of each qualifying
      resolution, in input order: its origins are strictly increasing, each
      is the first of its resolution, and every first of a resolution is
      among them. */
  lemma DedupCharacterized(formats: seq<Format>, n: nat)
    requires n <= |formats|
    ensures forall k :: 0 <= k < |Origins(formats, n)| ==> IsFirstOfResolution(formats, Origins(formats, n)[k])
    ensures forall a, b :: 0 <= a < b < |Origins(formats, n)| ==> Origins(formats, n)[a] < Origins(formats, n)[b]
    ensures forall i :: 0 <= i < n && IsFirstOfResolution(formats, i) ==> i in Origins(formats, n)
  {
    OriginsAreFirsts(formats, n);
    OriginsIncrease(formats, n);
    FirstsAreOrigins(formats, n);
  }

  /** No resolution appears twice in the response. */
  lemma DistinctResolutions(formats: seq<Format>)
    ensures var r := Resolutions(UniqueFormats(formats));
      forall a, b :: 0 <= a < b < |r| ==> r[a] != r[b]
  {
    var n := |formats|;
    DedupCharacterized(formats, n);
    var idx := Origins(formats, n);
    var out := UniqueFormats(formats);
    forall a, b | 0 <= a < b < |out|
      ensures out[a].resolution != out[b].resolution
    {
      assert IsFirstOfResolution(formats, idx[b]);
      assert idx[a] < idx[b];
    }
  }

  /** Every response entry copies a qualifying input format. */
  lemma FormatsQualify(formats: seq<Format>)
    ensures forall v :: v in UniqueFormats(formats) ==>
      exists i :: 0 <= i < |formats| && Qualifies(formats[i]) && v == View(formats[i])
  {
    var n := |formats|;
    DedupCharacterized(formats, n);
    var idx := Origins(formats, n);
    forall v | v in UniqueFormats(formats)
      ensures exists i :: 0 <= i < |formats| && Qualifies(formats[i]) && v == View(formats[i])
    {
      var k :| 0 <= k < |idx| && UniqueFormats(formats)[k] == v;
      assert IsFirstOfResolution(formats, idx[k]);
    }
  }

  /** The `.filter().map()` pipeline: one pass with the list of resolutions
      already emitted. */
  method FilterFormats(formats: seq<Format>) returns (out: seq<FormatView>)
    ensures out == UniqueFormats(formats)
  {
    var seen: seq<string> := [];
    out := [];
    var i := 0;
    while i < |formats|
      invariant 0 <= i <= |formats|
      invariant out == Dedup(formats, i)
      invariant seen == Resolutions(out)
    {
      var f := formats[i];
      if f.container == Some("mp4") && f.hasVideo && f.qualityLabel.Some? && f.qualityLabel.value != "" {
        var resolution := f.qualityLabel.value;
        if resolution !in seen {
          seen := seen + [resolution];
          out := out + [FormatView(f.itag, resolution, f.container, f.hasAudio, f.hasVideo, f.contentLength)];
        }
      }
      i := i + 1;
    }
  }

  /** `getVideoFormats`: an invalid URL is refused before the fetch, a
      failed fetch is an error, otherwise the filtered list with the title. */
  method GetVideoFormats(urlValid: bool, fetch: Option<VideoInfo>) returns (r: Result<VideoFormats, VideoError>)
    ensures !urlValid ==> r == Err(InvalidUrl)
    ensures urlValid && fetch.None? ==> r == Err(FetchFailed)
    ensures urlValid && fetch.Some? ==>
      r == Ok(VideoFormats(fetch.value.title, UniqueFormats(fetch.value.formats)))
  {
    if !urlValid {
      return Err(InvalidUrl);
    }
    if fetch.None? {
      return Err(FetchFailed);
    }
    var out := FilterFormats(fetch.value.formats);
    r := Ok(VideoFormats(fetch.value.title, out));
  }
}
