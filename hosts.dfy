/**
 * The host test of `isValidYouTubeUrl` (server.js): a URL is accepted when
 * it parses and its lower-cased host name contains `youtube.com` or
 * `youtu.be` anywhere.
 */
module Hosts {
  import opened Opt
  import Text

  const YOUTUBE_DOMAIN := "youtube.com"
  const SHORT_DOMAIN := "youtu.be"

  /** `host.includes('youtube.com') || host.includes('youtu.be')` on the lower-cased host name. */
  function IsAllowedHost(hostname: string): (ok: bool)
    ensures ok <==> (Text.Mentions(Text.ToLower(hostname), YOUTUBE_DOMAIN)
                     || Text.Mentions(Text.ToLower(hostname), SHORT_DOMAIN))
  {
    var host := Text.ToLower(hostname);
    Text.ContainsIff(host, YOUTUBE_DOMAIN);
    Text.ContainsIff(host, SHORT_DOMAIN);
    Text.Contains(host, YOUTUBE_DOMAIN) || Text.Contains(host, SHORT_DOMAIN)
  }

  /**
   * `isValidYouTubeUrl`, given the host name the URL parser produced, or None
   * when `new URL(input)` throws: a malformed URL is rejected, never an error.
   */
  function IsValidYouTubeUrl(parsedHostname: Option<string>): (ok: bool)
    ensures ok <==> parsedHostname.Some? && IsAllowedHost(parsedHostname.value)
  {
    match parsedHostname
    case None => false
    case Some(hostname) => IsAllowedHost(hostname)
  }

  /** The test ignores letter case: a host and its lower-case form are judged alike. */
  lemma AllowedHostIgnoresCase(hostname: string)
    ensures IsAllowedHost(hostname) == IsAllowedHost(Text.ToLower(hostname))
  {
    Text.ToLowerIdempotent(hostname);
  }

  /**
   * Any host name with an allowed domain inside it, in any letter case, is
   * accepted, wherever it sits: `www.YouTube.com`, `youtu.be`, and also
   * `youtube.com.example.net`.
   */
  lemma HostWithAllowedDomainAccepted(pre: string, domain: string, post: string)
    requires Text.ToLower(domain) == YOUTUBE_DOMAIN || Text.ToLower(domain) == SHORT_DOMAIN
    ensures IsAllowedHost(pre + domain + post)
  {
    var low := Text.ToLower(domain);
    Text.ToLowerConcat(pre + domain, post);
    Text.ToLowerConcat(pre, domain);
    Text.ContainsInfix(Text.ToLower(pre), low, Text.ToLower(post));
    Text.ContainsIff(Text.ToLower(pre) + low + Text.ToLower(post), low);
  }

  /** Characters i to i + |domain| of the host name spell `domain` in some letter case. */
  predicate DomainAt(hostname: string, domain: string, i: int) {
    0 <= i && i + |domain| <= |hostname| && Text.ToLower(hostname[i..i + |domain|]) == domain
  }

  /**
   * The test accepts exactly the host names that hold one of the two domains,
   * in any letter case, somewhere: nothing else gets through.
   */
  lemma AcceptedIffDomainInside(hostname: string)
    ensures IsAllowedHost(hostname) <==>
      exists i :: DomainAt(hostname, YOUTUBE_DOMAIN, i) || DomainAt(hostname, SHORT_DOMAIN, i)
  {
    var low := Text.ToLower(hostname);
    forall i | 0 <= i
      ensures Text.OccursAt(low, YOUTUBE_DOMAIN, i) <==> DomainAt(hostname, YOUTUBE_DOMAIN, i)
      ensures Text.OccursAt(low, SHORT_DOMAIN, i) <==> DomainAt(hostname, SHORT_DOMAIN, i)
    {
      LowerOfPiece(hostname, i, i + |YOUTUBE_DOMAIN|);
      LowerOfPiece(hostname, i, i + |SHORT_DOMAIN|);
    }
  }

  /** Lower-casing a piece of a string gives that piece of the lower-cased string. */
  lemma LowerOfPiece(s: string, lo: int, hi: int)
    ensures 0 <= lo <= hi <= |s| ==> Text.ToLower(s[lo..hi]) == Text.ToLower(s)[lo..hi]
  {
    if 0 <= lo <= hi <= |s| {
      var a, b := Text.ToLower(s[lo..hi]), Text.ToLower(s)[lo..hi];
      assert |a| == |b|;
      forall k | 0 <= k < |a| ensures a[k] == b[k] {
        assert s[lo..hi][k] == s[lo + k];
      }
    }
  }
}
