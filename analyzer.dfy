/**
 * `VideoAnalyzer` from utilities.py: classifies a URL as a direct video file,
 * a streaming platform or an unknown site, derives the extraction complexity
 * and the suggested method, analyses a batch and summarises it in a report.
 *
 * `urlparse` is an input: a URL comes with the outcome of parsing it, either
 * its network location and path, or the message of the error it raised.
 */
module Analyzer {
  import opened Text

  /** The file extensions that mark a direct video URL. */
  const VideoExtensions: seq<string> := [".mp4", ".mkv", ".avi", ".mov", ".wmv", ".flv", ".webm", ".m4v"]

  /** The domains handled by yt-dlp. */
  const StreamingDomains: set<string> := {
    "youtube.com", "youtu.be", "vimeo.com", "dailymotion.com",
    "twitch.tv", "facebook.com", "instagram.com"
  }

  datatype UrlParse = Parsed(netloc: string, path: string) | ParseError(message: string)

  datatype Url = Url(text: string, parse: UrlParse)

  datatype Complexity = Low | Medium | High

  datatype ExtractionMethod = DirectDownload | YtDlp | BrowserAutomation

  /** One analysis dictionary: the full record, or `{'url', 'error'}` when parsing raised. */
  datatype Analysis =
    | Analyzed(
        url: string,
        domain: string,
        path: string,
        isDirectVideo: bool,
        isStreamingPlatform: bool,
        requiresExtraction: bool,
        estimatedComplexity: Complexity,
        suggestedMethod: ExtractionMethod)
    | AnalysisFailed(url: string, error: string)

  function ComplexityLabel(c: Complexity): string {
    match c
    case Low => "low"
    case Medium => "medium"
    case High => "high"
  }

  function MethodLabel(m: ExtractionMethod): string {
    match m
    case DirectDownload => "direct_download"
    case YtDlp => "yt_dlp"
    case BrowserAutomation => "browser_automation"
  }

  /** The analysed domain: the network location lower-cased, every `www.` removed. */
  function NormalizeDomain(netloc: string): (r: string)
    ensures |r| <= |netloc|
    ensures (forall i :: !OccursAt(Lower(netloc), "www.", i)) ==> r == Lower(netloc)
  {
    assert (forall i :: !OccursAt(Lower(netloc), "www.", i)) ==> RemoveAll(Lower(netloc), "www.") == Lower(netloc) by {
      if forall i :: !OccursAt(Lower(netloc), "www.", i) {
        RemoveAllNoOccurrence(Lower(netloc), "www.");
      }
    }
    RemoveAll(Lower(netloc), "www.")
  }

  /** Whether `s` ends with one of `suffixes` (Python's `any(s.endswith(x) for x in ...)`). */
  function EndsWithAny(s: string, suffixes: seq<string>): (r: bool)
    ensures r <==> exists i :: 0 <= i < |suffixes| && EndsWith(s, suffixes[i])
  {
    if suffixes == [] then
      false
    else
      var rest := EndsWithAny(s, suffixes[1..]);
      assert forall i :: 1 <= i < |suffixes| ==> suffixes[i] == suffixes[1..][i - 1];
      EndsWith(s, suffixes[0]) || rest
  }

  /** `_is_direct_video_url`: the lower-cased path ends with a video extension. */
  predicate IsDirectVideoPath(path: string)
    ensures IsDirectVideoPath(path) <==> exists k :: 0 <= k < |VideoExtensions| && EndsWith(Lower(path), VideoExtensions[k])
  {
    EndsWithAny(Lower(path), VideoExtensions)
  }

  /** `_estimate_complexity`: a direct video first, then a streaming domain, else high. */
  function EstimateComplexity(path: string, domain: string): (c: Complexity)
    ensures c == Low <==> IsDirectVideoPath(path)
    ensures c == Medium <==> !IsDirectVideoPath(path) && domain in StreamingDomains
    ensures c == High <==> !IsDirectVideoPath(path) && domain !in StreamingDomains
  {
    if IsDirectVideoPath(path) then Low
    else if domain in StreamingDomains then Medium
    else High
  }

  /** `_suggest_extraction_method`, with the same precedence as `EstimateComplexity`. */
  function SuggestExtractionMethod(path: string, domain: string): (m: ExtractionMethod)
    ensures m == DirectDownload <==> IsDirectVideoPath(path)
    ensures m == YtDlp <==> !IsDirectVideoPath(path) && domain in StreamingDomains
    ensures m == BrowserAutomation <==> !IsDirectVideoPath(path) && domain !in StreamingDomains
  {
    if IsDirectVideoPath(path) then DirectDownload
    else if domain in StreamingDomains then YtDlp
    else BrowserAutomation
  }

  /** `analyze_url`. */
  function AnalyzeUrl(u: Url): (a: Analysis)
    ensures a.url == u.text
    ensures a.AnalysisFailed? <==> u.parse.ParseError?
  {
    match u.parse
    case ParseError(msg) => AnalysisFailed(u.text, msg)
    case Parsed(netloc, path) =>
      var domain := NormalizeDomain(netloc);
      Analyzed(
        u.text, domain, path,
        IsDirectVideoPath(path),
        domain in StreamingDomains,
        !IsDirectVideoPath(path),
        EstimateComplexity(path, domain),
        SuggestExtractionMethod(path, domain))
  }

  /**
   * A direct video is recognised whatever the case of its path, exactly
   * when the lower-cased path ends with one of the eight extensions.
   */
  lemma DirectVideoIgnoresCase(path: string)
    ensures IsDirectVideoPath(path) == IsDirectVideoPath(Lower(path))
    ensures IsDirectVideoPath(path) <==>
      exists e :: e in VideoExtensions && EndsWith(Lower(path), e)
  {
    LowerIdempotent(path);
  }

  /**
   * The fields of a successful analysis agree with each other: the domain
   * is the normalised netloc, `requires_extraction` is the negation of
   * `is_direct_video`, and complexity and method always come in the pairs
   * low/direct_download, medium/yt_dlp, high/browser_automation, chosen with
   * a direct video taking precedence over a streaming domain.
   */
  lemma AnalysisConsistent(u: Url)
    requires u.parse.Parsed?
    ensures var a := AnalyzeUrl(u);
      && a.Analyzed?
      && a.domain == NormalizeDomain(u.parse.netloc)
      && a.path == u.parse.path
      && a.isDirectVideo == IsDirectVideoPath(u.parse.path)
      && a.requiresExtraction == !a.isDirectVideo
      && a.isStreamingPlatform == (a.domain in StreamingDomains)
      && (a.estimatedComplexity == Low <==> a.suggestedMethod == DirectDownload)
      && (a.estimatedComplexity == Medium <==> a.suggestedMethod == YtDlp)
      && (a.estimatedComplexity == High <==> a.suggestedMethod == BrowserAutomation)
      && (a.estimatedComplexity == Low <==> a.isDirectVideo)
      && (a.estimatedComplexity == Medium <==> !a.isDirectVideo && a.isStreamingPlatform)
      && (a.estimatedComplexity == High <==> !a.isDirectVideo && !a.isStreamingPlatform)
  {
  }

  /** A leading `www.` is dropped, and a leading `WWW.` too, since the netloc is lower-cased first. */
  lemma {:induction false} DomainDropsLeadingWww(netloc: string)
    ensures NormalizeDomain("www." + netloc) == NormalizeDomain(netloc)
    ensures NormalizeDomain("WWW." + netloc) == NormalizeDomain(netloc)
  {
    assert Lower("www." + netloc) == "www." + Lower(netloc);
    assert Lower("WWW." + netloc) == "www." + Lower(netloc);
    RemoveAllLeading("www.", Lower(netloc));
  }

  /**
   * `replace` removes every `www.`, not only a leading one: in
   * `a + "www." + b` with no earlier `www.`, the interior one is dropped
   * and the rest is normalised on its own (so `a.www.b` becomes `a.b`).
   */
  lemma {:induction false} DomainDropsInteriorWww(a: string, b: string)
    requires forall i :: 0 <= i < |a| ==> !IsUpper(a[i])
    requires forall j :: 0 <= j < |a| ==> !OccursAt(a + "www." + b, "www.", j)
    ensures NormalizeDomain(a + "www." + b) == a + NormalizeDomain(b)
  {
    var s := a + "www." + b;
    var l := Lower(s);
    assert l == a + "www." + Lower(b);
    assert forall k :: 0 <= k < |a| + 4 ==> l[k] == s[k];
    forall j | 0 <= j < |a| ensures !OccursAt(l, "www.", j) {
      assert l[j..j + 4] == s[j..j + 4];
      assert !OccursAt(s, "www.", j);
    }
    assert OccursAt(l, "www.", |a|) by {
      assert l[|a|..|a| + 4] == "www.";
    }
    RemoveAllFirst(l, "www.", |a|);
    assert l[..|a|] == a;
    assert l[|a| + 4..] == Lower(b);
  }

  /**
   * `batch_analyze`: one analysis per input URL, in input order, each
   * carrying its own URL.
   */
  method BatchAnalyze(urls: seq<Url>) returns (results: seq<Analysis>)
    ensures |results| == |urls|
    ensures forall i :: 0 <= i < |urls| ==> results[i] == AnalyzeUrl(urls[i])
    ensures forall i :: 0 <= i < |urls| ==> results[i].url == urls[i].text
  {
    results := [];
    for i := 0 to |urls|
      invariant |results| == i
      invariant forall j :: 0 <= j < i ==> results[j] == AnalyzeUrl(urls[j])
    {
      results := results + [AnalyzeUrl(urls[i])];
    }
  }

  // ---------------------------------------------------------------
  // The report
  // ---------------------------------------------------------------

  /** The summary `generate_analysis_report` returns (its float success estimate is not modelled). */
  datatype Report = Report(
    totalUrls: nat,
    directVideos: nat,
    streamingPlatforms: nat,
    complexityDistribution: map<string, nat>,
    methodDistribution: map<string, nat>)

  /** `analysis.get('is_direct_video', False)` */
  predicate DirectVideoFlag(a: Analysis) { a.Analyzed? && a.isDirectVideo }

  /** `analysis.get('is_streaming_platform', False)` */
  predicate StreamingFlag(a: Analysis) { a.Analyzed? && a.isStreamingPlatform }

  /** `analysis.get('estimated_complexity', 'unknown')` */
  function ComplexityKey(a: Analysis): string {
    if a.Analyzed? then ComplexityLabel(a.estimatedComplexity) else "unknown"
  }

  /** `analysis.get('suggested_method', 'unknown')` */
  function MethodKey(a: Analysis): string {
    if a.Analyzed? then MethodLabel(a.suggestedMethod) else "unknown"
  }

  function ComplexityKeys(analyses: seq<Analysis>): (keys: seq<string>)
    ensures |keys| == |analyses|
    ensures forall i :: 0 <= i < |analyses| ==> keys[i] == ComplexityKey(analyses[i])
  {
    seq(|analyses|, i requires 0 <= i < |analyses| => ComplexityKey(analyses[i]))
  }

  function MethodKeys(analyses: seq<Analysis>): (keys: seq<string>)
    ensures |keys| == |analyses|
    ensures forall i :: 0 <= i < |analyses| ==> keys[i] == MethodKey(analyses[i])
  {
    seq(|analyses|, i requires 0 <= i < |analyses| => MethodKey(analyses[i]))
  }

  /** The number of analyses flagged as direct videos. */
  function CountDirectVideos(analyses: seq<Analysis>): (n: nat)
    ensures n <= |analyses|
  {
    if analyses == [] then 0
    else CountDirectVideos(analyses[..|analyses| - 1]) + (if DirectVideoFlag(analyses[|analyses| - 1]) then 1 else 0)
  }

  /** The number of analyses flagged as streaming platforms. */
  function CountStreaming(analyses: seq<Analysis>): (n: nat)
    ensures n <= |analyses|
  {
    if analyses == [] then 0
    else CountStreaming(analyses[..|analyses| - 1]) + (if StreamingFlag(analyses[|analyses| - 1]) then 1 else 0)
  }

  /** A count looked up with a default of 0 (`dist.get(key, 0)`). */
  function Get(m: map<string, nat>, k: string): nat {
    if k in m then m[k] else 0
  }

  /** `dist[key] = dist.get(key, 0) + 1` */
  function Bump(m: map<string, nat>, k: string): map<string, nat> {
    m[k := Get(m, k) + 1]
  }

  /** The distribution the report's loop builds from `keys`, one `Bump` per key in order. */
  function Tally(keys: seq<string>): map<string, nat> {
    if keys == [] then map[] else Bump(Tally(keys[..|keys| - 1]), keys[|keys| - 1])
  }

  /** The sum of a distribution's counts. */
  ghost function SumValues(m: map<string, nat>): nat
    decreases |m.Keys|
  {
    if m == map[] then 0
    else
      var k :| k in m;
      assert (m - {k}).Keys == m.Keys - {k};
      m[k] + SumValues(m - {k})
  }

  /** The sum can be taken by removing any key first. */
  lemma {:induction false} SumValuesRemove(m: map<string, nat>, k: string)
    requires k in m
    ensures SumValues(m) == m[k] + SumValues(m - {k})
    decreases |m.Keys|
  {
    var j :| j in m && SumValues(m) == m[j] + SumValues(m - {j});
    if j != k {
      assert (m - {j}).Keys == m.Keys - {j};
      assert (m - {k}).Keys == m.Keys - {k};
      SumValuesRemove(m - {j}, k);
      SumValuesRemove(m - {k}, j);
      assert m - {j} - {k} == m - {k} - {j};
    }
  }

  /** Counting one more key adds one to the sum. */
  lemma SumValuesBump(m: map<string, nat>, k: string)
    ensures SumValues(Bump(m, k)) == SumValues(m) + 1
  {
    var b := Bump(m, k);
    SumValuesRemove(b, k);
    assert b - {k} == m - {k};
    if k in m {
      SumValuesRemove(m, k);
    } else {
      assert m - {k} == m;
    }
  }

  /** Every key is counted exactly once: the counts of a tally add up to the number of keys. */
  lemma {:induction false} TallySum(keys: seq<string>)
    ensures SumValues(Tally(keys)) == |keys|
  {
    if keys != [] {
      TallySum(keys[..|keys| - 1]);
      SumValuesBump(Tally(keys[..|keys| - 1]), keys[|keys| - 1]);
    }
  }

  /** A tally holds exactly the keys that occur, each with the number of times it occurs. */
  lemma {:induction false} TallyCounts(keys: seq<string>, k: string)
    ensures k in Tally(keys) <==> k in keys
    ensures Get(Tally(keys), k) == multiset(keys)[k]
  {
    if keys != [] {
      var init := keys[..|keys| - 1];
      TallyCounts(init, k);
      assert keys == init + [keys[|keys| - 1]];
      assert multiset(keys) == multiset(init) + multiset{keys[|keys| - 1]};
    }
  }

  /** Tallying one more key is one more `Bump`. */
  lemma TallyExtend(keys: seq<string>, k: string)
    ensures Tally(keys + [k]) == Bump(Tally(keys), k)
  {
    assert (keys + [k])[..|keys|] == keys;
  }

  /** The keys of one more analysis extend the keys of the prefix by one. */
  lemma KeysExtend(analyses: seq<Analysis>, i: nat)
    requires i < |analyses|
    ensures Tally(ComplexityKeys(analyses[..i + 1])) == Bump(Tally(ComplexityKeys(analyses[..i])), ComplexityKey(analyses[i]))
    ensures Tally(MethodKeys(analyses[..i + 1])) == Bump(Tally(MethodKeys(analyses[..i])), MethodKey(analyses[i]))
  {
    assert ComplexityKeys(analyses[..i + 1]) == ComplexityKeys(analyses[..i]) + [ComplexityKey(analyses[i])];
    assert MethodKeys(analyses[..i + 1]) == MethodKeys(analyses[..i]) + [MethodKey(analyses[i])];
    TallyExtend(ComplexityKeys(analyses[..i]), ComplexityKey(analyses[i]));
    TallyExtend(MethodKeys(analyses[..i]), MethodKey(analyses[i]));
  }

  /** The report that `generate_analysis_report` computes. */
  function AnalysisReport(analyses: seq<Analysis>): (r: Report)
    ensures r.totalUrls == |analyses|
    ensures r.directVideos <= r.totalUrls && r.streamingPlatforms <= r.totalUrls
  {
    Report(
      |analyses|,
      CountDirectVideos(analyses),
      CountStreaming(analyses),
      Tally(ComplexityKeys(analyses)),
      Tally(MethodKeys(analyses)))
  }

  /**
   * `generate_analysis_report`: counts the flags and fills the two
   * distributions in one pass over the analyses.
   */
  method GenerateAnalysisReport(analyses: seq<Analysis>) returns (report: Report)
    ensures report == AnalysisReport(analyses)
  {
    var complexityDistribution: map<string, nat> := map[];
    var methodDistribution: map<string, nat> := map[];
    for i := 0 to |analyses|
      invariant complexityDistribution == Tally(ComplexityKeys(analyses[..i]))
      invariant methodDistribution == Tally(MethodKeys(analyses[..i]))
    {
      KeysExtend(analyses, i);
      var complexity := ComplexityKey(analyses[i]);
      var suggested := MethodKey(analyses[i]);
      complexityDistribution := complexityDistribution[complexity := Get(complexityDistribution, complexity) + 1];
      methodDistribution := methodDistribution[suggested := Get(methodDistribution, suggested) + 1];
    }
    assert analyses[..|analyses|] == analyses;
    report := Report(
      |analyses|,
      CountDirectVideos(analyses),
      CountStreaming(analyses),
      complexityDistribution,
      methodDistribution);
  }

  /**
   * The report's totals agree: each distribution's counts add up to
   * `total_urls`, the two flag counts are at most `total_urls`, and the
   * distribution keys are the three labels and `unknown`.
   */
  lemma ReportTotals(analyses: seq<Analysis>)
    ensures var r := AnalysisReport(analyses);
      && r.totalUrls == |analyses|
      && SumValues(r.complexityDistribution) == r.totalUrls
      && SumValues(r.methodDistribution) == r.totalUrls
      && r.directVideos <= r.totalUrls
      && r.streamingPlatforms <= r.totalUrls
      && (forall k :: k in r.complexityDistribution ==> k in {"low", "medium", "high", "unknown"})
      && (forall k :: k in r.methodDistribution ==> k in {"direct_download", "yt_dlp", "browser_automation", "unknown"})
  {
    TallySum(ComplexityKeys(analyses));
    TallySum(MethodKeys(analyses));
    forall k | k in Tally(ComplexityKeys(analyses))
      ensures k in {"low", "medium", "high", "unknown"}
    {
      TallyCounts(ComplexityKeys(analyses), k);
    }
    forall k | k in Tally(MethodKeys(analyses))
      ensures k in {"direct_download", "yt_dlp", "browser_automation", "unknown"}
    {
      TallyCounts(MethodKeys(analyses), k);
    }
  }

  /** The method `SuggestExtractionMethod` pairs with each complexity. */
  function PairedMethod(c: Complexity): ExtractionMethod {
    match c
    case Low => DirectDownload
    case Medium => YtDlp
    case High => BrowserAutomation
  }

  /** What `analyze_url` guarantees of each dictionary it returns. */
  predicate Consistent(a: Analysis) {
    a.Analyzed? ==>
      && a.suggestedMethod == PairedMethod(a.estimatedComplexity)
      && (a.estimatedComplexity == Low <==> a.isDirectVideo)
  }

  lemma AnalyzeUrlConsistent(u: Url)
    ensures Consistent(AnalyzeUrl(u))
  {
  }

  /** A consistent analysis lands under paired labels in the two distributions. */
  lemma KeysPaired(x: Analysis, c: Complexity)
    requires Consistent(x)
    ensures ComplexityKey(x) == ComplexityLabel(c) <==> MethodKey(x) == MethodLabel(PairedMethod(c))
    ensures ComplexityKey(x) == "unknown" <==> MethodKey(x) == "unknown"
    ensures ComplexityKey(x) == "low" <==> DirectVideoFlag(x)
    ensures MethodKey(x) == "direct_download" <==> DirectVideoFlag(x)
  {
    assert ComplexityLabel(Low) == "low" && ComplexityLabel(Medium) == "medium" && ComplexityLabel(High) == "high";
    assert MethodLabel(DirectDownload) == "direct_download" && MethodLabel(YtDlp) == "yt_dlp";
    assert MethodLabel(BrowserAutomation) == "browser_automation";
  }

  lemma GetBump(m: map<string, nat>, k: string, l: string)
    ensures Get(Bump(m, k), l) == Get(m, l) + (if k == l then 1 else 0)
  {
  }

  /**
   * For analyses produced by `analyze_url`, the two distributions mirror
   * each other through the complexity/method pairing, and both count the
   * direct videos under their first label.
   */
  lemma {:induction false} DistributionsMirror(analyses: seq<Analysis>)
    requires forall i :: 0 <= i < |analyses| ==> Consistent(analyses[i])
    ensures forall c :: Get(Tally(ComplexityKeys(analyses)), ComplexityLabel(c)) == Get(Tally(MethodKeys(analyses)), MethodLabel(PairedMethod(c)))
    ensures Get(Tally(ComplexityKeys(analyses)), "unknown") == Get(Tally(MethodKeys(analyses)), "unknown")
    ensures Get(Tally(ComplexityKeys(analyses)), "low") == CountDirectVideos(analyses)
    ensures Get(Tally(MethodKeys(analyses)), "direct_download") == CountDirectVideos(analyses)
  {
    var n := |analyses|;
    if n > 0 {
      var init := analyses[..n - 1];
      var x := analyses[n - 1];
      DistributionsMirror(init);
      KeysExtend(analyses, n - 1);
      assert analyses[..n] == analyses;
      var cd0, md0 := Tally(ComplexityKeys(init)), Tally(MethodKeys(init));
      var ck, mk := ComplexityKey(x), MethodKey(x);
      assert CountDirectVideos(analyses) == CountDirectVideos(init) + (if DirectVideoFlag(x) then 1 else 0);
      forall c: Complexity
        ensures Get(Bump(cd0, ck), ComplexityLabel(c)) == Get(Bump(md0, mk), MethodLabel(PairedMethod(c)))
      {
        KeysPaired(x, c);
        GetBump(cd0, ck, ComplexityLabel(c));
        GetBump(md0, mk, MethodLabel(PairedMethod(c)));
      }
      KeysPaired(x, Low);
      GetBump(cd0, ck, "unknown");
      GetBump(md0, mk, "unknown");
      GetBump(cd0, ck, "low");
      GetBump(md0, mk, "direct_download");
    }
  }

  /** Concretely: a batch of analysed URLs reports as many low-complexity entries as direct videos. */
  lemma BatchReportMirrors(urls: seq<Url>, analyses: seq<Analysis>)
    requires |analyses| == |urls|
    requires forall i :: 0 <= i < |urls| ==> analyses[i] == AnalyzeUrl(urls[i])
    ensures Get(AnalysisReport(analyses).complexityDistribution, "low") == AnalysisReport(analyses).directVideos
    ensures Get(AnalysisReport(analyses).complexityDistribution, "medium") == Get(AnalysisReport(analyses).methodDistribution, "yt_dlp")
    ensures Get(AnalysisReport(analyses).complexityDistribution, "high") == Get(AnalysisReport(analyses).methodDistribution, "browser_automation")
  {
    forall i | 0 <= i < |analyses| ensures Consistent(analyses[i]) {
      AnalyzeUrlConsistent(urls[i]);
    }
    DistributionsMirror(analyses);
    assert ComplexityLabel(Medium) == "medium" && MethodLabel(PairedMethod(Medium)) == "yt_dlp";
    assert ComplexityLabel(High) == "high" && MethodLabel(PairedMethod(High)) == "browser_automation";
  }

  /** An interior `www.` goes too: `a.www.b` is analysed as `a.b`. */
  lemma SampleInteriorWww()
    ensures NormalizeDomain("a.www.b") == "a.b"
  {
    var a, b := "a.", "b";
    assert a + "www." + b == "a.www.b";
    assert !IsUpper(a[0]) && !IsUpper(a[1]);
    forall j | 0 <= j < |a| ensures !OccursAt(a + "www." + b, "www.", j) {
      assert (a + "www." + b)[j] != 'w';
    }
    DomainDropsInteriorWww(a, b);
    NormalizeWithoutWww(b);
  }

  /** A netloc without `www.` in it is analysed as its lower-cased self. */
  lemma NormalizeWithoutWww(netloc: string)
    requires forall i :: 0 <= i < |netloc| ==> !IsUpper(netloc[i])
    requires forall i :: 0 <= i <= |netloc| - 4 ==> netloc[i] != 'w' || netloc[i + 1] != 'w' || netloc[i + 2] != 'w' || netloc[i + 3] != '.'
    ensures NormalizeDomain(netloc) == netloc
  {
    assert Lower(netloc) == netloc;
    forall i | 0 <= i <= |netloc| - 4 ensures !OccursAt(netloc, "www.", i) {
      var w := netloc[i..i + 4];
      assert w[0] == netloc[i] && w[1] == netloc[i + 1] && w[2] == netloc[i + 2] && w[3] == netloc[i + 3];
    }
  }

  /** A path whose last character ends none of the extensions is not a direct video. */
  lemma NotDirectByLastChar(path: string)
    requires path != []
    requires LowerChar(path[|path| - 1]) !in {'4', 'v', 'i', 'm'}
    ensures !IsDirectVideoPath(path)
  {
    var s := Lower(path);
    forall i | 0 <= i < |VideoExtensions| ensures !EndsWith(s, VideoExtensions[i]) {
    }
  }

  /** A path whose lower-cased form ends with one of the extensions is a direct video. */
  lemma DirectByExtension(path: string, k: nat)
    requires k < |VideoExtensions| && EndsWith(Lower(path), VideoExtensions[k])
    ensures IsDirectVideoPath(path)
  {
  }

  /** The direct-video sample URL of the analyser's tests, with `urlparse`'s split written out. */
  lemma SampleDirectVideo()
    ensures var a := AnalyzeUrl(Url("https://example.com/video.mp4", Parsed("example.com", "/video.mp4")));
      a.Analyzed? && a.isDirectVideo && a.estimatedComplexity == Low && a.suggestedMethod == DirectDownload
  {
    var path := "/video.mp4";
    assert Lower(path) == path by {
      assert forall i :: 0 <= i < |path| ==> !IsUpper(path[i]);
    }
    assert path[|path| - 4..] == VideoExtensions[0];
    DirectByExtension(path, 0);
  }

  /** The streaming sample URL: the query string is not part of the path. */
  lemma SampleStreaming()
    ensures var a := AnalyzeUrl(Url("https://youtube.com/watch?v=abc123", Parsed("youtube.com", "/watch")));
      a.Analyzed? && a.isStreamingPlatform && a.estimatedComplexity == Medium && a.suggestedMethod == YtDlp
  {
    NormalizeWithoutWww("youtube.com");
    NotDirectByLastChar("/watch");
  }
}
