/**
 * `WebsiteScraperService.scrape_website`: the page fetch is an oracle; on the
 * fetched text four fixed patterns are searched and the first match of each
 * is kept. The patterns are recognised by hand-written scanners: the email
 * scanner is proved to return the match Python's `re` engine reports first
 * (`FirstEmail`), and the profile scanner the capture of the leftmost match of
 * its whole pattern (`FirstCaptureIsFirstMatch`).
 */
module ContactExtraction {
  import opened Wrappers
  import opened Text
  import opened EmailValidation

  /** `[a-zA-Z0-9._]`: a character of an Instagram or Facebook handle. */
  predicate IsHandleChar(c: char) {
    IsAsciiLetter(c) || IsAsciiDigit(c) || c == '.' || c == '_'
  }

  /** `[a-zA-Z0-9._-]`: a character of a LinkedIn handle. */
  predicate IsLinkedInHandleChar(c: char) {
    IsHandleChar(c) || c == '-'
  }

  /** End of the longest run of `P`-characters starting at `i` (a greedy `[...]+`). */
  function RunEnd(s: string, i: nat, P: char -> bool): (j: nat)
    requires i <= |s|
    ensures i <= j <= |s|
    ensures forall k :: i <= k < j ==> P(s[k])
    ensures j == |s| || !P(s[j])
    decreases |s| - i
  {
    if i < |s| && P(s[i]) then RunEnd(s, i + 1, P) else i
  }

  // ---------------------------------------------------------------------------
  // Profile links: `(?:https?://)?(?:www\.)?<marker>([P]+)`, group 1 captured.
  // `FirstCapture` scans for the first marker occurrence that a handle
  // character follows; `FirstCaptureIsFirstMatch` below proves that this is
  // the capture of the leftmost match of the whole pattern.
  // ---------------------------------------------------------------------------

  const InstagramMarkers: seq<string> := ["instagram.com/"]
  const FacebookMarkers: seq<string> := ["facebook.com/"]
  /** `linkedin\.com/(?:company|in)/` */
  const LinkedInMarkers: seq<string> := ["linkedin.com/company/", "linkedin.com/in/"]

  /** At `k` the text reads `m` followed by the longest non-empty run `h` of `P`-characters. */
  predicate ProfileAt(s: string, k: int, m: string, h: string, P: char -> bool) {
    OccursAt(s, m + h, k) && |h| > 0 && AllChars(h, P)
    && (k + |m| + |h| == |s| || !P(s[k + |m| + |h|]))
  }

  /** The capture of a match whose marker starts at `k`: the markers are tried in order, as the alternation does. */
  function CaptureAt(s: string, k: nat, markers: seq<string>, P: char -> bool): (r: Option<string>)
    ensures r.Some? ==> exists m :: m in markers && ProfileAt(s, k, m, r.value, P)
    ensures r.None? ==> forall m, h :: m in markers ==> !ProfileAt(s, k, m, h, P)
    decreases |markers|
  {
    if markers == [] then None
    else
      var m := markers[0];
      if OccursAt(s, m, k) && k + |m| < |s| && P(s[k + |m|]) then
        var j := RunEnd(s, k + |m|, P);
        var h := s[k + |m|..j];
        assert s[k..k + |m + h|] == m + h by {
          assert s[k..k + |m + h|] == s[k..k + |m|] + s[k + |m|..j];
        }
        assert ProfileAt(s, k, m, h, P);
        Some(h)
      else
        ProfileStart(s, k, m, P);
        CaptureAt(s, k, markers[1..], P)
  }

  /** A profile link at `k` starts with its marker followed by a handle character. */
  lemma ProfileStart(s: string, k: nat, m: string, P: char -> bool)
    ensures forall h :: ProfileAt(s, k, m, h, P) ==> OccursAt(s, m, k) && k + |m| < |s| && P(s[k + |m|])
  {
    forall h | ProfileAt(s, k, m, h, P) ensures OccursAt(s, m, k) && k + |m| < |s| && P(s[k + |m|]) {
      assert s[k..k + |m|] == (m + h)[..|m|] == m;
      assert s[k + |m|] == (m + h)[|m|] == h[0];
    }
  }

  /** `re.findall(pattern, s)[0]` when there is a match, scanning positions from `from` on. */
  function FirstCapture(s: string, markers: seq<string>, P: char -> bool, from: nat): (r: Option<string>)
    ensures r.Some? ==> exists k, m :: from <= k && m in markers && ProfileAt(s, k, m, r.value, P)
                         && forall k', m', h' :: from <= k' < k && m' in markers ==> !ProfileAt(s, k', m', h', P)
    ensures r.None? ==> forall k, m, h :: from <= k && m in markers ==> !ProfileAt(s, k, m, h, P)
    decreases |s| + 1 - from
  {
    if from > |s| then
      assert forall k, m, h :: from <= k ==> !ProfileAt(s, k, m, h, P);
      None
    else
      match CaptureAt(s, from, markers, P)
      case Some(h) => Some(h)
      case None => FirstCapture(s, markers, P, from + 1)
  }

  // ---------------------------------------------------------------------------
  // The whole profile pattern, with its optional `https?://` and `www.`.
  // ---------------------------------------------------------------------------

  /** The six texts that `(?:https?://)?(?:www\.)?` can consume. */
  predicate IsLinkPrefix(pre: string) {
    pre in {"", "www.", "http://", "http://www.", "https://", "https://www."}
  }

  /** The characters a link prefix is made of. */
  predicate IsPrefixChar(c: char) {
    c == 'h' || c == 't' || c == 'p' || c == 's' || c == ':' || c == '/' || c == 'w' || c == '.'
  }

  predicate DifferAt(x: string, y: string, j: int) {
    0 <= j < |x| && j < |y| && x[j] != y[j]
  }

  /** The markers start with a character no link prefix contains, and no two of them can
      occur at the same position. */
  predicate MarkersOk(markers: seq<string>) {
    (forall m :: m in markers ==> m != [] && !IsPrefixChar(m[0]))
    && forall m1, m2 :: m1 in markers && m2 in markers && m1 != m2 ==> exists j :: 0 <= j < |m1| && DifferAt(m1, m2, j)
  }

  /** A match of `(?:https?://)?(?:www\.)?<marker>([P]+)` starts at `p` and captures `h`. */
  ghost predicate PatternMatchAt(s: string, p: int, markers: seq<string>, h: string, P: char -> bool) {
    exists pre, m :: IsLinkPrefix(pre) && m in markers && OccursAt(s, pre, p) && ProfileAt(s, p + |pre|, m, h, P)
  }

  /** The leftmost match starts at `p` and captures `h`: what `findall(...)[0]` returns. */
  ghost predicate FirstMatchAt(s: string, p: int, markers: seq<string>, h: string, P: char -> bool) {
    PatternMatchAt(s, p, markers, h, P) && forall p', h' :: p' < p ==> !PatternMatchAt(s, p', markers, h', P)
  }

  /** The three profile patterns meet the condition `FirstCaptureIsFirstMatch` needs. */
  lemma ProfileMarkersOk()
    ensures MarkersOk(InstagramMarkers) && MarkersOk(FacebookMarkers) && MarkersOk(LinkedInMarkers)
  {
    assert DifferAt(LinkedInMarkers[0], LinkedInMarkers[1], 13);
    assert DifferAt(LinkedInMarkers[1], LinkedInMarkers[0], 13);
  }

  /** Scanning for the first marker occurrence finds the capture of the pattern's leftmost match,
      and nothing exactly when the pattern does not match anywhere. */
  lemma FirstCaptureIsFirstMatch(s: string, markers: seq<string>, P: char -> bool)
    requires MarkersOk(markers)
    ensures FirstCapture(s, markers, P, 0).None? <==> forall p, h :: !PatternMatchAt(s, p, markers, h, P)
    ensures forall h :: FirstCapture(s, markers, P, 0) == Some(h) <==> exists p :: FirstMatchAt(s, p, markers, h, P)
  {
    var r := FirstCapture(s, markers, P, 0);
    if r.Some? {
      var h0 := r.value;
      var k0, m0 :| 0 <= k0 && m0 in markers && ProfileAt(s, k0, m0, h0, P)
        && forall k', m', h' :: 0 <= k' < k0 && m' in markers ==> !ProfileAt(s, k', m', h', P);
      MatchWithoutPrefix(s, k0, markers, m0, h0, P);
      var p, h := LeastMatch(s, markers, P, k0, h0);
      LeftmostCapture(s, markers, P, k0, m0, h0, p, h);
      forall h', p' | FirstMatchAt(s, p', markers, h', P) ensures h' == h0 {
        LeftmostCapture(s, markers, P, k0, m0, h0, p', h');
      }
    } else {
      NoProfileNoMatch(s, markers, P);
    }
  }

  /** A marker occurrence is a match on its own, with both prefixes left out. */
  lemma MatchWithoutPrefix(s: string, k: int, markers: seq<string>, m: string, h: string, P: char -> bool)
    requires 0 <= k && m in markers && ProfileAt(s, k, m, h, P)
    ensures PatternMatchAt(s, k, markers, h, P)
  {
    assert IsLinkPrefix("") && OccursAt(s, "", k) && ProfileAt(s, k + |""|, m, h, P);
  }

  /** Without a marker occurrence there is no match. */
  lemma NoProfileNoMatch(s: string, markers: seq<string>, P: char -> bool)
    requires forall k, m, h :: 0 <= k && m in markers ==> !ProfileAt(s, k, m, h, P)
    ensures forall p, h :: !PatternMatchAt(s, p, markers, h, P)
  {
  }

  /** Some match is the leftmost one. */
  lemma {:induction false} LeastMatch(s: string, markers: seq<string>, P: char -> bool, q: nat, hq: string)
    returns (p: int, h: string)
    requires PatternMatchAt(s, q, markers, hq, P)
    ensures FirstMatchAt(s, p, markers, h, P)
    decreases q
  {
    if exists p', h' :: p' < q && PatternMatchAt(s, p', markers, h', P) {
      var p', h' :| p' < q && PatternMatchAt(s, p', markers, h', P);
      var pre, m :| IsLinkPrefix(pre) && m in markers && OccursAt(s, pre, p') && ProfileAt(s, p' + |pre|, m, h', P);
      p, h := LeastMatch(s, markers, P, p', h');
    } else {
      p, h := q, hq;
    }
  }

  /** The leftmost match has its marker at the first marker occurrence, so it captures the
      handle that follows that occurrence. */
  lemma LeftmostCapture(s: string, markers: seq<string>, P: char -> bool, k0: int, m0: string, h0: string, p: int, h: string)
    requires MarkersOk(markers) && 0 <= k0 && m0 in markers && ProfileAt(s, k0, m0, h0, P)
    requires forall k', m', h' :: 0 <= k' < k0 && m' in markers ==> !ProfileAt(s, k', m', h', P)
    requires FirstMatchAt(s, p, markers, h, P)
    ensures h == h0
  {
    MatchWithoutPrefix(s, k0, markers, m0, h0, P);
    var pre, m := MatchParts(s, p, markers, h, P);
    PrefixChars(pre);
    PrefixedCapture(s, markers, P, k0, m0, h0, p, pre, m, h);
  }

  /** The prefix and marker of a match. */
  lemma MatchParts(s: string, p: int, markers: seq<string>, h: string, P: char -> bool) returns (pre: string, m: string)
    requires PatternMatchAt(s, p, markers, h, P)
    ensures IsLinkPrefix(pre) && m in markers && OccursAt(s, pre, p) && ProfileAt(s, p + |pre|, m, h, P)
  {
    pre, m :| IsLinkPrefix(pre) && m in markers && OccursAt(s, pre, p) && ProfileAt(s, p + |pre|, m, h, P);
  }

  /** A match starting no later than the first marker occurrence has its marker there. */
  lemma PrefixedCapture(s: string, markers: seq<string>, P: char -> bool, k0: int, m0: string, h0: string,
                        p: int, pre: string, m: string, h: string)
    requires MarkersOk(markers) && 0 <= k0 && m0 in markers && ProfileAt(s, k0, m0, h0, P)
    requires forall k', m', h' :: 0 <= k' < k0 && m' in markers ==> !ProfileAt(s, k', m', h', P)
    requires (forall i :: 0 <= i < |pre| ==> IsPrefixChar(pre[i])) && OccursAt(s, pre, p)
    requires m in markers && ProfileAt(s, p + |pre|, m, h, P) && p <= k0
    ensures h == h0
  {
    MarkerAfterPrefix(s, p, pre, k0, m0, h0, P);
    assert p + |pre| == k0;
    MarkerUnique(s, k0, markers, m, m0, h, h0, P);
    HandleIsRun(s, k0, m0, h, P);
    HandleIsRun(s, k0, m0, h0, P);
  }

  /** A marker occurrence at or after the start of a prefix made of link-prefix characters lies past it. */
  lemma MarkerAfterPrefix(s: string, p: int, pre: string, k: int, m: string, h: string, P: char -> bool)
    requires (forall i :: 0 <= i < |pre| ==> IsPrefixChar(pre[i])) && OccursAt(s, pre, p) && p <= k
    requires ProfileAt(s, k, m, h, P) && m != [] && !IsPrefixChar(m[0])
    ensures p + |pre| <= k
  {
    CharOfProfile(s, k, m, h, P, 0);
    forall i | p <= i < p + |pre| ensures s[i] == pre[i - p] {
      assert s[p..p + |pre|][i - p] == pre[i - p];
    }
  }

  lemma PrefixChars(pre: string)
    requires IsLinkPrefix(pre)
    ensures forall i :: 0 <= i < |pre| ==> IsPrefixChar(pre[i])
  {
  }

  lemma CharOfProfile(s: string, k: int, m: string, h: string, P: char -> bool, j: int)
    requires ProfileAt(s, k, m, h, P) && 0 <= j < |m|
    ensures s[k + j] == m[j]
  {
    assert s[k..k + |m + h|][j] == (m + h)[j];
  }

  /** Two markers occurring at one position are the same marker. */
  lemma MarkerUnique(s: string, k: int, markers: seq<string>, m1: string, m2: string, h1: string, h2: string, P: char -> bool)
    requires MarkersOk(markers) && m1 in markers && m2 in markers
    requires ProfileAt(s, k, m1, h1, P) && ProfileAt(s, k, m2, h2, P)
    ensures m1 == m2
  {
    forall j | 0 <= j < |m1| && j < |m2| ensures m1[j] == m2[j] {
      CharOfProfile(s, k, m1, h1, P, j);
      CharOfProfile(s, k, m2, h2, P, j);
    }
  }

  /** The handle after a marker is the greedy run there. */
  lemma HandleIsRun(s: string, k: int, m: string, h: string, P: char -> bool)
    requires ProfileAt(s, k, m, h, P)
    ensures h == s[k + |m|..RunEnd(s, k + |m|, P)]
  {
    var b := k + |m|;
    forall j | b <= j < b + |h| ensures s[j] == h[j - b] && P(s[j]) {
      assert s[k..k + |m + h|][j - k] == (m + h)[j - k];
    }
    var e := RunEnd(s, b, P);
    assert e == b + |h|;
    assert s[b..e] == h;
  }

  // ---------------------------------------------------------------------------
  // The email pattern `\b[A-Za-z0-9._%+-]+@[A-Za-z0-9.-]+\.[A-Z|a-z]{2,}\b`.
  // ---------------------------------------------------------------------------

  /** `\w` on ASCII: a letter, a digit or `_`. */
  predicate IsWordChar(c: char) {
    IsAsciiLetter(c) || IsAsciiDigit(c) || c == '_'
  }

  predicate WordAt(s: string, i: int) {
    0 <= i < |s| && IsWordChar(s[i])
  }

  /** `\b` holds at position `i`. */
  predicate Boundary(s: string, i: int) {
    WordAt(s, i - 1) != WordAt(s, i)
  }

  /** `s[p..q]` is a match of the email pattern, its `@` at `at` and the dot before the
      top-level label at `dot`. */
  predicate EmailMatch(s: string, p: int, at: int, dot: int, q: int) {
    0 <= p < at && at + 1 < dot && dot + 2 < q <= |s|
    && Boundary(s, p) && Boundary(s, q)
    && s[at] == '@' && s[dot] == '.'
    && (forall k :: p <= k < at ==> IsLocalChar(s[k]))
    && (forall k :: at < k < dot ==> IsDomainChar(s[k]))
    && (forall k :: dot < k < q ==> IsTldChar(s[k]))
  }

  /** The match the backtracking engine reports first: the leftmost start, and there the
      greedy `[A-Za-z0-9.-]+` gives the rightmost dot, then `{2,}` the longest label. */
  ghost predicate IsFirstEmail(s: string, p: int, at: int, dot: int, q: int) {
    EmailMatch(s, p, at, dot, q)
    && (forall p', at', dot', q' :: p' < p ==> !EmailMatch(s, p', at', dot', q'))
    && (forall at', dot', q' :: EmailMatch(s, p, at', dot', q') ==> dot' < dot || (dot' == dot && q' <= q))
  }

  /** The largest `q` in `[lo, hi]` where `\b` holds: `{2,}` backtracking from its longest run. */
  function LastBoundary(s: string, lo: nat, hi: nat): (r: Option<nat>)
    ensures r.Some? ==> lo <= r.value <= hi && Boundary(s, r.value)
                         && forall q :: r.value < q <= hi ==> !Boundary(s, q)
    ensures r.None? ==> forall q :: lo <= q <= hi ==> !Boundary(s, q)
    decreases hi
  {
    if hi < lo then None
    else if Boundary(s, hi) then Some(hi)
    else if hi == lo then None
    else LastBoundary(s, lo, hi - 1)
  }

  /** Ends `q` that complete a match whose top-level label follows a dot at `d`. */
  predicate LabelEnd(s: string, d: int, q: int) {
    0 <= d && d + 2 < q <= |s| && Boundary(s, q) && (forall k :: d < k < q ==> IsTldChar(s[k]))
  }

  /** The best label end after the dot at `d`, if any. */
  function BestLabelEnd(s: string, d: nat): (r: Option<nat>)
    requires d < |s|
    ensures r.Some? ==> LabelEnd(s, d, r.value) && forall q :: LabelEnd(s, d, q) ==> q <= r.value
    ensures r.None? ==> forall q :: !LabelEnd(s, d, q)
  {
    var t := RunEnd(s, d + 1, IsTldChar);
    if d + 3 <= t then LastBoundary(s, d + 3, t) else None
  }

  /** Candidate dots from `d` down to `at + 2`, right to left: the backtracking of the greedy domain part. */
  function DotSearch(s: string, at: nat, d: nat): (r: Option<(nat, nat)>)
    requires d < |s|
    ensures r.Some? ==> at + 2 <= r.value.0 <= d && s[r.value.0] == '.' && LabelEnd(s, r.value.0, r.value.1)
                         && forall q :: LabelEnd(s, r.value.0, q) ==> q <= r.value.1
    ensures r.Some? ==> forall d', q :: r.value.0 < d' <= d && s[d'] == '.' ==> !LabelEnd(s, d', q)
    ensures r.None? ==> forall d', q :: at + 2 <= d' <= d && s[d'] == '.' ==> !LabelEnd(s, d', q)
    decreases d
  {
    if d < at + 2 then None
    else
      var end := if s[d] == '.' then BestLabelEnd(s, d) else None;
      if end.Some? then Some((d, end.value)) else DotSearch(s, at, d - 1)
  }

  /** The match starting at `p`, if there is one: `(at, dot, end)`. */
  function MatchFrom(s: string, p: nat): (r: Option<(nat, nat, nat)>)
    requires p <= |s|
  {
    if !Boundary(s, p) then None
    else
      var at := RunEnd(s, p, IsLocalChar);
      if at == p || at == |s| || s[at] != '@' then None
      else
        var e := RunEnd(s, at + 1, IsDomainChar);
        match DotSearch(s, at, e - 1)
        case None => None
        case Some(found) => Some((at, found.0, found.1))
  }

  /** What `MatchFrom` finds is the engine's match at `p`. */
  lemma MatchFromSound(s: string, p: nat)
    requires p <= |s| && MatchFrom(s, p).Some?
    ensures var (at, dot, q) := MatchFrom(s, p).value;
      EmailMatch(s, p, at, dot, q)
      && forall at', dot', q' :: EmailMatch(s, p, at', dot', q') ==> dot' < dot || (dot' == dot && q' <= q)
  {
    var (at, dot, q) := MatchFrom(s, p).value;
    var e := RunEnd(s, at + 1, IsDomainChar);
    assert EmailMatch(s, p, at, dot, q);
    forall at', dot', q' | EmailMatch(s, p, at', dot', q')
      ensures dot' < dot || (dot' == dot && q' <= q)
    {
      MatchShape(s, p, at', dot', q');
      assert LabelEnd(s, dot', q');
    }
  }

  /** Any match at `p` has its `@` at the end of the local run and its dot inside the domain run. */
  lemma MatchShape(s: string, p: nat, at: int, dot: int, q: int)
    requires p <= |s| && EmailMatch(s, p, at, dot, q)
    ensures at == RunEnd(s, p, IsLocalChar)
    ensures dot < RunEnd(s, at + 1, IsDomainChar)
  {
    var a := RunEnd(s, p, IsLocalChar);
    var e := RunEnd(s, at + 1, IsDomainChar);
  }

  /** When `MatchFrom` finds nothing, no match starts at `p`. */
  lemma MatchFromComplete(s: string, p: nat)
    requires p <= |s| && MatchFrom(s, p).None?
    ensures forall at, dot, q :: !EmailMatch(s, p, at, dot, q)
  {
    forall at, dot, q | EmailMatch(s, p, at, dot, q) ensures false {
      MatchShape(s, p, at, dot, q);
      assert LabelEnd(s, dot, q);
    }
  }

  /** Scan the start positions from `from` on. */
  function EmailFrom(s: string, from: nat): (r: Option<(nat, nat, nat, nat)>)
    requires from <= |s| + 1
    ensures r.Some? ==> from <= r.value.0
    decreases |s| + 1 - from
  {
    if from > |s| then None
    else
      match MatchFrom(s, from)
      case Some(m) => Some((from, m.0, m.1, m.2))
      case None => EmailFrom(s, from + 1)
  }

  /** No match starts anywhere in `[lo, hi)`. */
  ghost predicate NoMatchIn(s: string, lo: int, hi: int) {
    forall p, at, dot, q :: lo <= p < hi ==> !EmailMatch(s, p, at, dot, q)
  }

  /** The match `(at, dot, q)` is the one the engine prefers among those starting at `p`. */
  ghost predicate BestAt(s: string, p: int, at: int, dot: int, q: int) {
    EmailMatch(s, p, at, dot, q)
    && forall at', dot', q' :: EmailMatch(s, p, at', dot', q') ==> dot' < dot || (dot' == dot && q' <= q)
  }

  /** What the scan from `from` reports: the engine's preferred match at the first start
      that has one, and no match before it; or no match anywhere from `from` on. */
  ghost predicate ScanResult(s: string, from: int, r: Option<(nat, nat, nat, nat)>) {
    match r
    case Some(m) => BestAt(s, m.0, m.1, m.2, m.3) && NoMatchIn(s, from, m.0)
    case None => NoMatchIn(s, from, |s| + 1)
  }

  lemma {:induction false} EmailFromCorrect(s: string, from: nat)
    requires from <= |s| + 1
    ensures ScanResult(s, from, EmailFrom(s, from))
    decreases |s| + 1 - from
  {
    if from <= |s| {
      EmailFromCorrect(s, from + 1);
      EmailFromStep(s, from);
    }
  }

  /** One step of the scan: a match at `from`, or whatever the scan reports from `from + 1`. */
  lemma EmailFromStep(s: string, from: nat)
    requires from <= |s| && ScanResult(s, from + 1, EmailFrom(s, from + 1))
    ensures ScanResult(s, from, EmailFrom(s, from))
  {
    if MatchFrom(s, from).Some? {
      EmailFromHit(s, from);
    } else {
      EmailFromMiss(s, from);
    }
  }

  /** A match at `from` is the one the scan reports. */
  lemma EmailFromHit(s: string, from: nat)
    requires from <= |s| && MatchFrom(s, from).Some?
    ensures ScanResult(s, from, EmailFrom(s, from))
  {
    var m := MatchFrom(s, from).value;
    assert EmailFrom(s, from) == Some((from, m.0, m.1, m.2));
    MatchFromSound(s, from);
  }

  /** No match at `from`: the scan goes on, and what it reports holds from `from` too. */
  lemma EmailFromMiss(s: string, from: nat)
    requires from <= |s| && MatchFrom(s, from).None?
    requires ScanResult(s, from + 1, EmailFrom(s, from + 1))
    ensures ScanResult(s, from, EmailFrom(s, from))
  {
    MatchFromComplete(s, from);
    var next := EmailFrom(s, from + 1);
    assert EmailFrom(s, from) == next;
    if next.Some? {
      NoMatchExtend(s, from, next.value.0);
    } else {
      NoMatchExtend(s, from, |s| + 1);
    }
  }

  /** A start with no match in front of a stretch with none. */
  lemma NoMatchExtend(s: string, from: int, hi: int)
    requires forall at, dot, q :: !EmailMatch(s, from, at, dot, q)
    requires NoMatchIn(s, from + 1, hi)
    ensures NoMatchIn(s, from, hi)
  {
  }

  /** No match can start past the end of the text. */
  lemma NoMatchPastEnd(s: string, lo: int)
    requires lo >= |s|
    ensures NoMatchIn(s, lo, lo + |s| + 2)
  {
  }

  /** `re.findall(email_pattern, content)[0]`, or `None` when there is no match. */
  function FirstEmail(s: string): (r: Option<string>)
    ensures r.None? <==> forall p, at, dot, q :: !EmailMatch(s, p, at, dot, q)
    ensures r.Some? ==> exists p, at, dot, q :: IsFirstEmail(s, p, at, dot, q) && r.value == s[p..q]
  {
    EmailFromCorrect(s, 0);
    NoMatchPastEnd(s, |s| + 1);
    match EmailFrom(s, 0)
    case None => None
    case Some(m) =>
      assert IsFirstEmail(s, m.0, m.1, m.2, m.3);
      Some(s[m.0..m.3])
  }

  // ---------------------------------------------------------------------------
  // The scrape itself.
  // ---------------------------------------------------------------------------

  /** What `requests.get` followed by `raise_for_status()` yields: the page text, or an exception. */
  datatype FetchResult = Page(content: string) | FetchFailed

  /** The result dictionary of `scrape_website`; `None` stands for a pattern without a match. */
  datatype Contacts = Contacts(email: Option<string>, instagram: Option<string>,
                               facebook: Option<string>, linkedin: Option<string>)

  const NoContacts := Contacts(None, None, None, None)

  /** `"https://" + url` unless `url` already starts with `http://` or `https://` (case-sensitive). */
  function WithScheme(url: string): string {
    if StartsWith(url, "http://") || StartsWith(url, "https://") then url else "https://" + url
  }

  function Canonical(prefix: string, handle: Option<string>): Option<string> {
    match handle
    case None => None
    case Some(h) => Some(prefix + h)
  }

  /** The four searches over the fetched text. */
  function ExtractContacts(content: string): Contacts {
    Contacts(
      FirstEmail(content),
      Canonical("https://instagram.com/", FirstCapture(content, InstagramMarkers, IsHandleChar, 0)),
      Canonical("https://facebook.com/", FirstCapture(content, FacebookMarkers, IsHandleChar, 0)),
      Canonical("https://linkedin.com/company/", FirstCapture(content, LinkedInMarkers, IsLinkedInHandleChar, 0)))
  }

  /** `scrape_website(url)`: a failed fetch leaves every field `None`. */
  function ScrapeWebsite(url: string, fetch: string -> FetchResult): Contacts {
    match fetch(WithScheme(url))
    case FetchFailed => NoContacts
    case Page(content) => ExtractContacts(content)
  }

  /** The URL handed to the fetch always carries an http(s) scheme, and only a missing one is added. */
  lemma WithSchemeAddsHttps(url: string)
    ensures StartsWith(WithScheme(url), "http://") || StartsWith(WithScheme(url), "https://")
    ensures WithScheme(url) == url || WithScheme(url) == "https://" + url
    ensures WithScheme(WithScheme(url)) == WithScheme(url)
  {
    if !(StartsWith(url, "http://") || StartsWith(url, "https://")) {
      assert ("https://" + url)[..8] == "https://";
    }
  }

  /** Every email kept passes `validate_format`: the extraction pattern is the validation
      pattern with `\b` in place of `^` and `$`. */
  lemma ExtractedEmailIsValid(content: string)
    requires ExtractContacts(content).email.Some?
    ensures ValidateFormat(ExtractContacts(content).email.value)
  {
    var p, at, dot, q :| IsFirstEmail(content, p, at, dot, q)
                         && ExtractContacts(content).email.value == content[p..q];
    MatchIsValidEmail(content, p, at, dot, q);
  }

  lemma MatchIsValidEmail(s: string, p: int, at: int, dot: int, q: int)
    requires EmailMatch(s, p, at, dot, q)
    ensures ValidateFormat(s[p..q])
  {
    var e := s[p..q];
    assert IsEmailSplit(e, at - p, dot - p) by {
      forall k | 0 <= k < at - p ensures IsLocalChar(e[k]) {
        assert e[k] == s[p + k];
      }
      forall k | at - p < k < dot - p ensures IsDomainChar(e[k]) {
        assert e[k] == s[p + k];
      }
      forall k | dot - p < k < |e| ensures IsTldChar(e[k]) {
        assert e[k] == s[p + k];
      }
    }
    SplitIsValid(e, at - p, dot - p);
  }

  /** Social fields are canonical: `https://<platform>.com/` and a handle that the page
      shows right after the platform's domain. */
  lemma InstagramCanonical(content: string)
    requires ExtractContacts(content).instagram.Some?
    ensures exists h, k :: ExtractContacts(content).instagram.value == "https://instagram.com/" + h
                          && |h| > 0 && AllChars(h, IsHandleChar)
                          && OccursAt(content, "instagram.com/" + h, k)
  {
  }

  /** A LinkedIn match is reported as a company page even when the page linked a personal `/in/` profile. */
  lemma LinkedInAlwaysCompany(content: string)
    requires ExtractContacts(content).linkedin.Some?
    ensures StartsWith(ExtractContacts(content).linkedin.value, "https://linkedin.com/company/")
  {
  }

  /** Nothing is extracted from a page that could not be fetched. */
  lemma FailedFetchGivesNothing(url: string, fetch: string -> FetchResult)
    requires fetch(WithScheme(url)) == FetchFailed
    ensures ScrapeWebsite(url, fetch) == NoContacts
  {
  }
}
