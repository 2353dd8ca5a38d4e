/**
 * The verdict rule of `LinkVerificationService.verify_instagram` and
 * `verify_facebook`. The HEAD request (redirects followed, 10 s timeout) is
 * an oracle `probe`: it either yields the final status code and final URL,
 * or fails (timeout or any other transport error).
 */
module LinkVerification {
  import opened Text

  /** What one HEAD request with redirects followed gives back. */
  datatype Probe = Response(statusCode: int, finalUrl: string) | RequestFailed

  datatype Platform = Instagram | Facebook

  /** The path fragment that marks a redirect to the platform's login page. */
  function LoginMarker(p: Platform): string {
    match p
    case Instagram => "accounts/login"
    case Facebook => "login"
  }

  /** A final URL ending like this is the platform's bare home page. */
  function HomeSuffix(p: Platform): string {
    match p
    case Instagram => "instagram.com/"
    case Facebook => "facebook.com/"
  }

  /** `not url or not url.strip()` */
  predicate IsBlank(url: string) {
    Strip(url) == []
  }

  /** The decision taken once the probe has answered. */
  predicate Verdict(p: Platform, outcome: Probe) {
    match outcome
    case RequestFailed => false
    case Response(code, final) =>
      code < 400
      && !Contains(Lower(final), LoginMarker(p))
      && !EndsWith(Lower(final), HomeSuffix(p))
  }

  /** The check shared by both verifiers: blank links are rejected before any request. */
  function Verify(p: Platform, url: string, probe: string -> Probe): (ok: bool)
    ensures ok ==> !IsBlank(url) && probe(url).Response? && probe(url).statusCode < 400
  {
    if IsBlank(url) then false else Verdict(p, probe(url))
  }

  function VerifyInstagram(url: string, probe: string -> Probe): bool {
    Verify(Instagram, url, probe)
  }

  function VerifyFacebook(url: string, probe: string -> Probe): bool {
    Verify(Facebook, url, probe)
  }

  /** A blank link is rejected whatever the network would have said: no request is issued. */
  lemma BlankRejectedWithoutProbe(p: Platform, url: string, probe1: string -> Probe, probe2: string -> Probe)
    requires IsBlank(url)
    ensures !Verify(p, url, probe1) && Verify(p, url, probe1) == Verify(p, url, probe2)
  {
  }

  /** A link is accepted exactly when the probe answered below 400 with a final URL that is neither a login page nor the bare home page. */
  lemma VerifyAccepts(p: Platform, url: string, probe: string -> Probe)
    ensures Verify(p, url, probe) <==>
      !IsBlank(url) && probe(url).Response? && probe(url).statusCode < 400
      && !(exists i :: OccursAt(Lower(probe(url).finalUrl), LoginMarker(p), i))
      && !EndsWith(Lower(probe(url).finalUrl), HomeSuffix(p))
  {
  }

  /** The final URL is compared case-insensitively. */
  lemma VerdictIgnoresCase(p: Platform, code: int, final: string)
    ensures Verdict(p, Response(code, final)) == Verdict(p, Response(code, Lower(final)))
  {
    LowerIdempotent(final);
  }

  /** `p` occurs inside `q`, and `q` occurs in `s`: then `p` occurs in `s`. */
  lemma OccursWithin(s: string, q: string, p: string, i: int, j: int)
    requires OccursAt(s, q, i) && OccursAt(q, p, j)
    ensures OccursAt(s, p, i + j)
  {
    forall k | 0 <= k < |p| ensures s[i + j + k] == p[k] {
      assert s[i..i + |q|][j + k] == q[j + k];
      assert q[j..j + |p|][k] == p[k];
    }
    assert s[i + j..i + j + |p|] == p;
  }

  /** A final URL on Instagram's login page is rejected by the Facebook rule too:
      "accounts/login" contains "login", so Facebook's login test is the stricter one. */
  lemma FacebookLoginRuleIsStricter(code: int, final: string)
    requires Contains(Lower(final), LoginMarker(Instagram))
    ensures !Verdict(Facebook, Response(code, final))
  {
    var f := Lower(final);
    var i :| OccursAt(f, "accounts/login", i);
    assert OccursAt("accounts/login", "login", 9);
    OccursWithin(f, "accounts/login", "login", i, 9);
  }

  /** A link whose request ends on the bare Instagram home page (the usual redirect for a
      removed profile) is rejected even though the status is 200. */
  lemma InstagramHomepageRejected(url: string, probe: string -> Probe)
    requires probe(url) == Response(200, "https://www.Instagram.com/")
    ensures !VerifyInstagram(url, probe)
  {
    assert "https://www.Instagram.com/" == "https://www." + "Instagram.com/";
    assert Lower("Instagram.com/") == "instagram.com/";
    LoweredEndsWith("https://www.", "Instagram.com/");
  }

  /** Lower-casing a text keeps the lower-cased ending at its end. */
  lemma LoweredEndsWith(head: string, tail: string)
    ensures EndsWith(Lower(head + tail), Lower(tail))
  {
    var s := head + tail;
    forall k | 0 <= k < |tail| ensures Lower(s)[|head|..][k] == Lower(tail)[k] {
      assert s[|head| + k] == tail[k];
    }
  }
}
