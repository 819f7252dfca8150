/** `extract_subsection`, `_extract_urls_from_subsections` and
    `extract_all_subsections`: turning subsection pages into video units and
    the two aligned lists of video and subtitle URLs.

    The regular expressions are not modelled. What they find on a page is an
    input: the pieces `re_splitter.split(page)` cuts the page into, the
    identifiers `re_extra_youtube.findall(page)` returns, and, as a function
    of one piece, the capture of `re_subs.search(piece)`. */
module Subsections {
  import opened Wrappers
  import opened Text

  /** Length of a YouTube video identifier. */
  const YoutubeVideoIdLength: nat := 11
  const WatchPrefix: string := "http://youtube.com/watch?v="
  /** What follows the transcript path in a subtitle URL, before the id. */
  const SubtitleSuffix: string := "/en?videoId="

  /** `Unit(video_youtube_url, sub_url)`. */
  datatype Unit = Unit(videoUrl: string, subUrl: Option<string>)

  /** `SubSection(url, units)`. */
  datatype SubSection = SubSection(url: string, units: seq<Unit>)

  /** The two regular-expression results for one page. */
  datatype PageScan = PageScan(pieces: seq<string>, iframeIds: seq<string>)

  /** The search for a transcript-translation URL inside one piece. */
  type TranscriptSearch = string -> Option<string>

  /** `s[:11]`: the first eleven characters, or all of a shorter string. */
  function VideoId(s: string): (id: string)
    ensures |id| == if |s| < YoutubeVideoIdLength then |s| else YoutubeVideoIdLength
    ensures StartsWith(s, id)
  {
    if |s| < YoutubeVideoIdLength then s else s[..YoutubeVideoIdLength]
  }

  function WatchUrl(id: string): string {
    WatchPrefix + id
  }

  /** The video identifier a watch URL names, if it is one. */
  function WatchId(url: string): Option<string> {
    if StartsWith(url, WatchPrefix) then Some(url[|WatchPrefix|..]) else None
  }

  /** A watch URL names exactly the identifier it was built from, so distinct
      identifiers give distinct URLs. */
  lemma WatchIdOfWatchUrl(id: string)
    ensures WatchId(WatchUrl(id)) == Some(id)
  {
    assert WatchUrl(id)[..|WatchPrefix|] == WatchPrefix;
  }

  function SubtitleUrl(baseUrl: string, path: string, id: string): string {
    baseUrl + path + SubtitleSuffix + id
  }

  /** The unit one piece after a split point yields. */
  function PrimaryUnit(baseUrl: string, transcript: TranscriptSearch, piece: string): (u: Unit)
    ensures WatchId(u.videoUrl) == Some(VideoId(piece))
    ensures u.subUrl.Some? <==> transcript(piece).Some?
    ensures u.subUrl.Some? ==> StartsWith(u.subUrl.value, baseUrl + transcript(piece).value)
    ensures u.subUrl.Some? ==> EndsWith(u.subUrl.value, SubtitleSuffix + VideoId(piece))
    ensures u.subUrl.Some? ==> |u.subUrl.value| == |baseUrl + transcript(piece).value| + |SubtitleSuffix + VideoId(piece)|
  {
    var id := VideoId(piece);
    WatchIdOfWatchUrl(id);
    match transcript(piece)
    case None => Unit(WatchUrl(id), None)
    case Some(path) =>
      var url := SubtitleUrl(baseUrl, path, id);
      assert url == (baseUrl + path) + (SubtitleSuffix + id);
      Unit(WatchUrl(id), Some(url))
  }

  /** The primary pass over the pieces it is given: one unit per piece, in
      order. */
  function PrimaryUnits(baseUrl: string, transcript: TranscriptSearch, pieces: seq<string>): (us: seq<Unit>)
    ensures |us| == |pieces|
    ensures forall k :: 0 <= k < |pieces| ==> us[k] == PrimaryUnit(baseUrl, transcript, pieces[k])
  {
    if pieces == [] then []
    else PrimaryUnits(baseUrl, transcript, pieces[..|pieces| - 1]) + [PrimaryUnit(baseUrl, transcript, pieces[|pieces| - 1])]
  }

  /** The iframe pass: one unit per identifier found, in order, without a
      subtitle URL and without removing duplicates. */
  function IframeUnits(ids: seq<string>): (us: seq<Unit>)
    ensures |us| == |ids|
    ensures forall k :: 0 <= k < |ids| ==> us[k].subUrl.None? && WatchId(us[k].videoUrl) == Some(VideoId(ids[k]))
  {
    if ids == [] then []
    else
      var id := VideoId(ids[|ids| - 1]);
      WatchIdOfWatchUrl(id);
      IframeUnits(ids[..|ids| - 1]) + [Unit(WatchUrl(id), None)]
  }

  /** `[1:]`: everything after the first element, nothing for an empty list. */
  function Rest(pieces: seq<string>): seq<string> {
    if pieces == [] then [] else pieces[1..]
  }

  /** Number of units the primary pass yields: one per split point. */
  function PrimaryCount(scan: PageScan): nat {
    |Rest(scan.pieces)|
  }

  /** Every unit names a watch URL with an identifier of at most eleven
      characters, and a subtitle URL, when present, asks for that same
      identifier. */
  predicate WellFormedUnit(u: Unit) {
    && WatchId(u.videoUrl).Some?
    && |WatchId(u.videoUrl).value| <= YoutubeVideoIdLength
    && (u.subUrl.Some? ==> EndsWith(u.subUrl.value, SubtitleSuffix + WatchId(u.videoUrl).value))
  }

  /** The subsection one page yields: the primary units for the pieces after
      the first, in page order, then the iframe units, in match order. */
  function ExtractSubsection(url: string, baseUrl: string, transcript: TranscriptSearch, scan: PageScan): (sub: SubSection)
    ensures sub.url == url
    ensures |sub.units| == PrimaryCount(scan) + |scan.iframeIds|
  {
    SubSection(url, PrimaryUnits(baseUrl, transcript, Rest(scan.pieces)) + IframeUnits(scan.iframeIds))
  }
  lemma PrimaryUnitWellFormed(baseUrl: string, transcript: TranscriptSearch, piece: string)
    ensures WellFormedUnit(PrimaryUnit(baseUrl, transcript, piece))
  {
  }

  /** What one page yields: the url is kept; one unit per split point, in page
      order, followed by one subtitle-less unit per iframe identifier, in match
      order, duplicates kept; and every unit is well formed. */
  lemma ExtractSubsectionUnits(url: string, baseUrl: string, transcript: TranscriptSearch, scan: PageScan)
    ensures ExtractSubsection(url, baseUrl, transcript, scan).url == url
    ensures |ExtractSubsection(url, baseUrl, transcript, scan).units| == PrimaryCount(scan) + |scan.iframeIds|
    ensures forall k :: 0 <= k < PrimaryCount(scan) ==>
              ExtractSubsection(url, baseUrl, transcript, scan).units[k] == PrimaryUnit(baseUrl, transcript, scan.pieces[k + 1])
    ensures forall j :: 0 <= j < |scan.iframeIds| ==>
              && ExtractSubsection(url, baseUrl, transcript, scan).units[PrimaryCount(scan) + j].subUrl.None?
              && WatchId(ExtractSubsection(url, baseUrl, transcript, scan).units[PrimaryCount(scan) + j].videoUrl) == Some(VideoId(scan.iframeIds[j]))
    ensures forall k :: 0 <= k < |ExtractSubsection(url, baseUrl, transcript, scan).units| ==>
              WellFormedUnit(ExtractSubsection(url, baseUrl, transcript, scan).units[k])
  {
    var primary := PrimaryUnits(baseUrl, transcript, Rest(scan.pieces));
    var extra := IframeUnits(scan.iframeIds);
    var units := ExtractSubsection(url, baseUrl, transcript, scan).units;
    assert units == primary + extra;
    forall k | 0 <= k < |primary|
      ensures units[k] == PrimaryUnit(baseUrl, transcript, scan.pieces[k + 1]) && WellFormedUnit(units[k])
    {
      assert Rest(scan.pieces)[k] == scan.pieces[k + 1];
      PrimaryUnitWellFormed(baseUrl, transcript, scan.pieces[k + 1]);
    }
    forall j | 0 <= j < |extra|
      ensures units[|primary| + j] == extra[j] && WellFormedUnit(units[|primary| + j])
    {
    }
  }

  /** How extraction of one page can fail as the code is written. */
  datatype ExtractError = MissingSubUrl

  /** `extract_subsection` as written: the iframe pass builds each `Unit`
      with the video URL alone, and a `Unit` has no default for its subtitle
      URL, so the first iframe identifier raises instead of appending. */
  function ExtractSubsectionAsWritten(url: string, baseUrl: string, transcript: TranscriptSearch, scan: PageScan): (r: Result<SubSection, ExtractError>)
    ensures r.Ok? <==> scan.iframeIds == []
    ensures r.Ok? ==> r.value.url == url && |r.value.units| == PrimaryCount(scan)
  {
    if scan.iframeIds == [] then Ok(SubSection(url, PrimaryUnits(baseUrl, transcript, Rest(scan.pieces))))
    else Err(MissingSubUrl)
  }

  /** The code as written agrees with the corrected extraction exactly on the
      pages without an iframe embed; every page with one fails. */
  lemma AsWrittenAgreesIff(url: string, baseUrl: string, transcript: TranscriptSearch, scan: PageScan)
    ensures ExtractSubsectionAsWritten(url, baseUrl, transcript, scan) == Ok(ExtractSubsection(url, baseUrl, transcript, scan))
            <==> scan.iframeIds == []
    ensures scan.iframeIds != [] ==> ExtractSubsectionAsWritten(url, baseUrl, transcript, scan) == Err(MissingSubUrl)
  {
    if scan.iframeIds == [] {
      var primary := PrimaryUnits(baseUrl, transcript, Rest(scan.pieces));
      assert IframeUnits(scan.iframeIds) == [];
      assert primary + [] == primary;
    }
  }

  /** A page with a single iframe embed and no streams (the split leaves the
      whole page as its one piece): the corrected extraction yields one unit
      for it, the code as written fails. */
  lemma IframeOnlyPage(url: string, baseUrl: string, transcript: TranscriptSearch, scan: PageScan)
    requires |scan.pieces| == 1 && |scan.iframeIds| == 1
    ensures ExtractSubsectionAsWritten(url, baseUrl, transcript, scan).Err?
    ensures |ExtractSubsection(url, baseUrl, transcript, scan).units| == 1
  {
    ExtractSubsectionUnits(url, baseUrl, transcript, scan);
  }

  /** A page where neither pattern matches yields no units. */
  lemma NoMatchNoUnits(url: string, baseUrl: string, transcript: TranscriptSearch, scan: PageScan)
    requires |scan.pieces| <= 1 && scan.iframeIds == []
    ensures ExtractSubsection(url, baseUrl, transcript, scan).units == []
  {
  }

  /** All units of the subsections, subsection by subsection, each in its
      own order. */
  function Flatten(subs: seq<SubSection>): seq<Unit> {
    if subs == [] then [] else Flatten(subs[..|subs| - 1]) + subs[|subs| - 1].units
  }

  /** Flattening distributes over concatenation of subsection lists. */
  lemma {:induction false} FlattenAppend(a: seq<SubSection>, b: seq<SubSection>)
    ensures Flatten(a + b) == Flatten(a) + Flatten(b)
    decreases |b|
  {
    if b != [] {
      var b' := b[..|b| - 1];
      assert (a + b)[..|a + b| - 1] == a + b';
      FlattenAppend(a, b');
    } else {
      assert a + b == a;
    }
  }

  /** Unit `j` of subsection `i` sits in the flattened list right after the
      units of the subsections before `i`. */
  lemma FlattenPosition(subs: seq<SubSection>, i: nat, j: nat)
    requires i < |subs| && j < |subs[i].units|
    ensures |Flatten(subs[..i])| + j < |Flatten(subs)|
    ensures Flatten(subs)[|Flatten(subs[..i])| + j] == subs[i].units[j]
  {
    assert subs == subs[..i] + [subs[i]] + subs[i + 1..];
    FlattenAppend(subs[..i] + [subs[i]], subs[i + 1..]);
    FlattenAppend(subs[..i], [subs[i]]);
    assert Flatten([subs[i]]) == subs[i].units by {
      assert [subs[i]][..0] == [];
    }
  }

  /** `_extract_urls_from_subsections`: the video URLs and the subtitle URLs
      of all units, two lists aligned index by index. */
  method ExtractUrls(subs: seq<SubSection>) returns (videoUrls: seq<string>, subUrls: seq<Option<string>>)
    ensures |videoUrls| == |subUrls| == |Flatten(subs)|
    ensures forall k :: 0 <= k < |videoUrls| ==>
              videoUrls[k] == Flatten(subs)[k].videoUrl && subUrls[k] == Flatten(subs)[k].subUrl
  {
    videoUrls := [];
    subUrls := [];
    for i := 0 to |subs|
      invariant Collected(Flatten(subs[..i]), videoUrls, subUrls)
    {
      var units := subs[i].units;
      ghost var before := Flatten(subs[..i]);
      for j := 0 to |units|
        invariant Collected(before + units[..j], videoUrls, subUrls)
      {
        CollectedSnoc(before + units[..j], videoUrls, subUrls, units[j]);
        assert before + units[..j + 1] == before + units[..j] + [units[j]];
        videoUrls := videoUrls + [units[j].videoUrl];
        subUrls := subUrls + [units[j].subUrl];
      }
      assert units[..|units|] == units;
      assert subs[..i + 1][..i] == subs[..i];
    }
    assert subs[..|subs|] == subs;
  }

  /** The two lists hold the URLs of `us`, in order. */
  predicate Collected(us: seq<Unit>, videoUrls: seq<string>, subUrls: seq<Option<string>>) {
    && |videoUrls| == |subUrls| == |us|
    && forall k :: 0 <= k < |us| ==> videoUrls[k] == us[k].videoUrl && subUrls[k] == us[k].subUrl
  }

  lemma CollectedSnoc(us: seq<Unit>, videoUrls: seq<string>, subUrls: seq<Option<string>>, u: Unit)
    requires Collected(us, videoUrls, subUrls)
    ensures Collected(us + [u], videoUrls + [u.videoUrl], subUrls + [u.subUrl])
  {
  }

  /** The subsection each URL's page yields, in URL order; `scanOf` stands
      for fetching a page and running the regular expressions on it. */
  function ExtractEach(urls: seq<string>, baseUrl: string, transcript: TranscriptSearch, scanOf: string -> PageScan): seq<SubSection> {
    seq(|urls|, i requires 0 <= i < |urls| => ExtractSubsection(urls[i], baseUrl, transcript, scanOf(urls[i])))
  }

  /** Results follow input order, so extracting a list of URLs in two parts
      gives the two parts' results one after the other. */
  lemma ExtractEachAppend(a: seq<string>, b: seq<string>, baseUrl: string, transcript: TranscriptSearch, scanOf: string -> PageScan)
    ensures ExtractEach(a + b, baseUrl, transcript, scanOf)
            == ExtractEach(a, baseUrl, transcript, scanOf) + ExtractEach(b, baseUrl, transcript, scanOf)
  {
    var whole := ExtractEach(a + b, baseUrl, transcript, scanOf);
    var parts := ExtractEach(a, baseUrl, transcript, scanOf) + ExtractEach(b, baseUrl, transcript, scanOf);
    assert |whole| == |parts|;
    forall i | 0 <= i < |whole|
      ensures whole[i] == parts[i]
    {
      if i < |a| {
        assert (a + b)[i] == a[i];
      } else {
        assert (a + b)[i] == b[i - |a|];
      }
    }
  }

  lemma ExtractEachSnoc(urls: seq<string>, i: nat, baseUrl: string, transcript: TranscriptSearch, scanOf: string -> PageScan)
    requires i < |urls|
    ensures ExtractEach(urls[..i + 1], baseUrl, transcript, scanOf)
            == ExtractEach(urls[..i], baseUrl, transcript, scanOf) + [ExtractSubsection(urls[i], baseUrl, transcript, scanOf(urls[i]))]
  {
    assert urls[..i + 1] == urls[..i] + [urls[i]];
    ExtractEachAppend(urls[..i], [urls[i]], baseUrl, transcript, scanOf);
  }

  /** `extract_all_subsections`: extract every URL's subsection (the thread
      pool's `map` keeps input order, so a sequential map is the same) and
      flatten the units into aligned video and subtitle URL lists.
      `allResources` is the source's intermediate list `all_resources`, one
      subsection per URL. The source returns only the two URL lists; the
      intermediate list is returned here only so the contract can name it. */
  method ExtractAll(urls: seq<string>, baseUrl: string, transcript: TranscriptSearch, scanOf: string -> PageScan)
    returns (allResources: seq<SubSection>, videoUrls: seq<string>, subUrls: seq<Option<string>>)
    ensures allResources == ExtractEach(urls, baseUrl, transcript, scanOf)
    ensures Collected(Flatten(allResources), videoUrls, subUrls)
  {
    allResources := [];
    for i := 0 to |urls|
      invariant allResources == ExtractEach(urls[..i], baseUrl, transcript, scanOf)
    {
      ExtractEachSnoc(urls, i, baseUrl, transcript, scanOf);
      allResources := allResources + [ExtractSubsection(urls[i], baseUrl, transcript, scanOf(urls[i]))];
    }
    assert urls[..|urls|] == urls;
    videoUrls, subUrls := ExtractUrls(allResources);
  }
}
