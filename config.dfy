/**
 * The configuration models of video_downloader.py: `SiteConfig` with its
 * selector validator, and `WebVideoDownloader._get_site_config`, which picks
 * a site's profile by the URL's network location.
 */
module Config {
  import opened Wrappers
  import opened Text

  /** `SiteConfig`; delays in seconds. */
  datatype SiteConfig = SiteConfig(
    videoButton: seq<string>,
    downloadLink: seq<string>,
    loginUsername: Option<string>,
    loginPassword: Option<string>,
    loginUrl: Option<string>,
    loginUsernameField: string,
    loginPasswordField: string,
    loginSubmitButton: string,
    waitAfterLogin: int,
    customHeaders: map<string, string>,
    humanDelayMin: real,
    humanDelayMax: real)

  /** A `video_button` or `download_link` value as written in the configuration: one selector or a list. */
  datatype SelectorsField = SingleSelector(selector: string) | SelectorList(selectors: seq<string>)

  /** `convert_strings_to_list`: a lone selector becomes a one-element list, a list passes through. */
  function ConvertStringsToList(v: SelectorsField): (r: seq<string>)
    ensures v.SingleSelector? ==> r == [v.selector]
    ensures v.SelectorList? ==> r == v.selectors
  {
    match v
    case SingleSelector(s) => [s]
    case SelectorList(items) => items
  }

  /** The key a URL is looked up under: its network location with every `www.` removed, case kept. */
  function SiteKey(netloc: string): (r: string)
    ensures |r| <= |netloc|
    ensures (forall i :: !OccursAt(netloc, "www.", i)) ==> r == netloc
  {
    assert (forall i :: !OccursAt(netloc, "www.", i)) ==> RemoveAll(netloc, "www.") == netloc by {
      if forall i :: !OccursAt(netloc, "www.", i) {
        RemoveAllNoOccurrence(netloc, "www.");
      }
    }
    RemoveAll(netloc, "www.")
  }

  /** `_get_site_config`: an exact lookup by `SiteKey`; `None` when the site has no entry. */
  function GetSiteConfig(sites: map<string, SiteConfig>, netloc: string): (r: Option<SiteConfig>)
    ensures r.Some? <==> SiteKey(netloc) in sites
    ensures r.Some? ==> r.value == sites[SiteKey(netloc)]
  {
    var domain := SiteKey(netloc);
    if domain in sites then Some(sites[domain]) else None
  }

  /** A leading `www.` does not change which profile is found. */
  lemma WwwPrefixSameProfile(sites: map<string, SiteConfig>, netloc: string)
    ensures GetSiteConfig(sites, "www." + netloc) == GetSiteConfig(sites, netloc)
  {
    RemoveAllLeading("www.", netloc);
  }

  /**
   * Keys are matched case-sensitively and no default profile is
   * substituted: a profile stored under the lower-cased form of a netloc
   * (one without `www.`) is found for that netloc exactly when the netloc
   * is already lower case.
   */
  lemma LookupIsCaseSensitive(netloc: string, c: SiteConfig)
    requires forall i :: !OccursAt(netloc, "www.", i)
    ensures GetSiteConfig(map[Lower(netloc) := c], netloc).Some? <==> Lower(netloc) == netloc
  {
  }
}
