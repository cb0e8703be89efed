/**
 * `extractPostId`: the Instagram post id inside a product link, found by an
 * unanchored search for one regular expression. Only that expression is
 * modelled, as a direct scan over the string with the leftmost-match and
 * greedy-repetition rules a backtracking matcher applies to it.
 */
module PostId {
  import opened Options

  /** The expression `extractPostId` searches for, and the one its sample links need. */
  datatype Pattern =
    | AsWritten   // instagram\.com\/[^\/]+\/p\/([^\/\?]+)
    | Corrected   // instagram\.com\/(?:p|[^\/]+\/p)\/([^\/\?]+)

  const Host: string := "instagram.com/"

  /** Whether `lit` occurs in `s` at position `i`. */
  predicate StartsAt(s: string, i: nat, lit: string) {
    i + |lit| <= |s| && s[i..i + |lit|] == lit
  }

  /** `StartsAt` character by character. */
  lemma StartsAtIntro(s: string, i: nat, lit: string)
    requires i + |lit| <= |s|
    requires forall k :: 0 <= k < |lit| ==> s[i + k] == lit[k]
    ensures StartsAt(s, i, lit)
  {
    var t := s[i..i + |lit|];
    assert forall k :: 0 <= k < |t| ==> t[k] == lit[k];
  }

  /** The end of the longest run starting at `i` of characters outside `stops`: a greedy `[^...]*`. */
  function RunEnd(s: string, i: nat, stops: set<char>): (j: nat)
    requires i <= |s|
    ensures i <= j <= |s|
    ensures forall k :: i <= k < j ==> s[k] !in stops
    ensures j == |s| || s[j] in stops
    decreases |s| - i
  {
    if i == |s| || s[i] in stops then i else RunEnd(s, i + 1, stops)
  }

  /** The group `([^\/\?]+)` at position `c`: the longest non-empty run free of `/` and `?`. */
  function Capture(url: string, c: nat): (r: Option<string>)
    requires c <= |url|
    ensures r.Some? ==> r.value != [] && '/' !in r.value && '?' !in r.value
  {
    var e := RunEnd(url, c, {'/', '?'});
    if e == c then None
    else
      assert forall k :: 0 <= k < e - c ==> url[c..e][k] == url[c + k];
      Some(url[c..e])
  }

  /**
   * `instagram\.com\/[^\/]+\/p\/([^\/\?]+)` at position `j`. The greedy
   * segment can only succeed at its full length, since a shorter one would
   * leave a character other than `/` where the `/` of `/p/` must be.
   */
  function UserForm(url: string, j: nat): (r: Option<string>)
    requires j <= |url|
  {
    if !StartsAt(url, j, Host) then None
    else
      var q := RunEnd(url, j + |Host|, {'/'});
      if q == j + |Host| || !StartsAt(url, q, "/p/") then None
      else Capture(url, q + 3)
  }

  /** `instagram\.com\/p\/([^\/\?]+)` at position `j`. */
  function DirectForm(url: string, j: nat): (r: Option<string>)
    requires j <= |url|
  {
    if StartsAt(url, j, Host + "p/") then Capture(url, j + |Host| + 2) else None
  }

  /** The captured id when the pattern matches at position `j`; the corrected one tries `p/` first. */
  function MatchAt(pattern: Pattern, url: string, j: nat): (r: Option<string>)
    requires j <= |url|
    ensures r.Some? ==> r.value != [] && '/' !in r.value && '?' !in r.value
  {
    match pattern
    case AsWritten => UserForm(url, j)
    case Corrected => if DirectForm(url, j).Some? then DirectForm(url, j) else UserForm(url, j)
  }

  /** `url.match(pattern)` from position `j` on: the capture of the leftmost match. */
  function Search(pattern: Pattern, url: string, j: nat): (r: Option<string>)
    requires j <= |url|
    ensures r.Some? ==> exists k :: j <= k <= |url| && MatchAt(pattern, url, k) == r
                                  && forall k' :: j <= k' < k ==> MatchAt(pattern, url, k').None?
    ensures r.None? ==> forall k :: j <= k <= |url| ==> MatchAt(pattern, url, k).None?
    decreases |url| - j
  {
    var m := MatchAt(pattern, url, j);
    if m.Some? then m
    else if j == |url| then None
    else Search(pattern, url, j + 1)
  }

  /** `extractPostId(url)`: `null` for an empty link, else the group of the leftmost match. */
  function ExtractPostId(url: string): (r: Option<string>)
    ensures url == [] ==> r == None
    ensures r.Some? ==> r.value != [] && '/' !in r.value && '?' !in r.value
  {
    if url == [] then None else Search(AsWritten, url, 0)
  }

  /** `extractPostId` with the corrected expression. */
  function ExtractPostIdCorrected(url: string): (r: Option<string>)
    ensures url == [] ==> r == None
    ensures r.Some? ==> r.value != [] && '/' !in r.value && '?' !in r.value
  {
    if url == [] then None else Search(Corrected, url, 0)
  }

  // ---------------------------------------------------------------- what a match is

  /** `instagram.com/<seg>/p/<id><tail>`: a post link under a path segment. */
  function UserLink(seg: string, id: string, tail: string): string {
    Host + seg + "/p/" + id + tail
  }

  /** The segment is non-empty and `/`-free, the id is non-empty and free of `/` and `?`, and a stop follows it. */
  predicate IsLinkParts(seg: string, id: string, tail: string) {
    && seg != [] && '/' !in seg
    && id != [] && '/' !in id && '?' !in id
    && (tail == [] || tail[0] == '/' || tail[0] == '?')
  }

  /** A run that stops at `e` ends at `e`. */
  lemma RunEndAt(s: string, i: nat, e: nat, stops: set<char>)
    requires i <= e <= |s|
    requires forall k :: i <= k < e ==> s[k] !in stops
    requires e == |s| || s[e] in stops
    ensures RunEnd(s, i, stops) == e
    decreases e - i
  {
    if i < e {
      RunEndAt(s, i + 1, e, stops);
    }
  }

  /** A group read over `w` that ends at a stop or at the end of the string captures `w`. */
  lemma CaptureOver(url: string, c: nat, w: string)
    requires c + |w| <= |url|
    requires forall k :: c <= k < c + |w| ==> url[k] == w[k - c]
    requires '/' !in w && '?' !in w
    requires c + |w| == |url| || url[c + |w|] == '/' || url[c + |w|] == '?'
    ensures RunEnd(url, c, {'/', '?'}) == c + |w| && url[c..c + |w|] == w
  {
    forall k | c <= k < c + |w|
      ensures url[k] !in {'/', '?'}
    {
      assert url[k] == w[k - c];
    }
    RunEndAt(url, c, c + |w|, {'/', '?'});
    assert url[c..c + |w|] == w;
  }

  lemma UserFormOfParts(url: string, j: nat, q: nat, id: string)
    requires j + |Host| < q && q + 3 + |id| <= |url|
    requires StartsAt(url, j, Host) && RunEnd(url, j + |Host|, {'/'}) == q && StartsAt(url, q, "/p/")
    requires RunEnd(url, q + 3, {'/', '?'}) == q + 3 + |id| && url[q + 3..q + 3 + |id|] == id && id != []
    ensures MatchAt(AsWritten, url, j) == Some(id)
  {
  }

  lemma UserLinkHost(pre: string, seg: string, id: string, tail: string)
    ensures StartsAt(pre + UserLink(seg, id, tail), |pre|, Host)
  {
    StartsAtIntro(pre + UserLink(seg, id, tail), |pre|, Host);
  }

  lemma UserLinkSegment(pre: string, seg: string, id: string, tail: string)
    requires IsLinkParts(seg, id, tail)
    ensures var url, p := pre + UserLink(seg, id, tail), |pre| + |Host|;
      p + |seg| <= |url| && RunEnd(url, p, {'/'}) == p + |seg|
  {
    var url, p := pre + UserLink(seg, id, tail), |pre| + |Host|;
    assert forall k :: p <= k < p + |seg| ==> url[k] == seg[k - p];
    RunEndAt(url, p, p + |seg|, {'/'});
  }

  lemma UserLinkMarker(pre: string, seg: string, id: string, tail: string)
    ensures StartsAt(pre + UserLink(seg, id, tail), |pre| + |Host| + |seg|, "/p/")
  {
    StartsAtIntro(pre + UserLink(seg, id, tail), |pre| + |Host| + |seg|, "/p/");
  }

  lemma UserLinkId(pre: string, seg: string, id: string, tail: string)
    requires IsLinkParts(seg, id, tail)
    ensures var url, c := pre + UserLink(seg, id, tail), |pre| + |Host| + |seg| + 3;
      c + |id| <= |url| && RunEnd(url, c, {'/', '?'}) == c + |id| && url[c..c + |id|] == id
  {
    var url, c := pre + UserLink(seg, id, tail), |pre| + |Host| + |seg| + 3;
    assert forall k :: c <= k < c + |id| ==> url[k] == id[k - c];
    assert c + |id| == |url| || url[c + |id|] == tail[0];
    CaptureOver(url, c, id);
  }

  /** The as-written pattern matches where a user-style link starts, and captures its id. */
  lemma UserFormExact(pre: string, seg: string, id: string, tail: string)
    requires IsLinkParts(seg, id, tail)
    ensures MatchAt(AsWritten, pre + UserLink(seg, id, tail), |pre|) == Some(id)
  {
    UserLinkHost(pre, seg, id, tail);
    UserLinkSegment(pre, seg, id, tail);
    UserLinkMarker(pre, seg, id, tail);
    UserLinkId(pre, seg, id, tail);
    UserFormOfParts(pre + UserLink(seg, id, tail), |pre|, |pre| + |Host| + |seg|, id);
  }

  /** A string cut at five points is its prefix followed by the left-nested concatenation of the rest. */
  lemma Pieces(s: string, i0: nat, i1: nat, i2: nat, i3: nat, i4: nat)
    requires i0 <= i1 <= i2 <= i3 <= i4 <= |s|
    ensures s == s[..i0] + (s[i0..i1] + s[i1..i2] + s[i2..i3] + s[i3..i4] + s[i4..])
  {
    var r := s[i0..];
    assert r[..i2 - i0] == s[i0..i1] + s[i1..i2];
    assert r[..i3 - i0] == s[i0..i1] + s[i1..i2] + s[i2..i3];
    assert r[..i4 - i0] == s[i0..i1] + s[i1..i2] + s[i2..i3] + s[i3..i4];
    assert r == r[..i4 - i0] + s[i4..];
    assert s == s[..i0] + r;
  }

  // Where the pieces of a match of the as-written pattern at `j` lie.

  lemma MatchedHost(url: string, j: nat)
    requires j <= |url| && MatchAt(AsWritten, url, j).Some?
    ensures url[j..j + |Host|] == Host
  {
  }

  lemma MatchedMarker(url: string, j: nat)
    requires j <= |url| && MatchAt(AsWritten, url, j).Some?
    ensures var q := RunEnd(url, j + |Host|, {'/'}); q + 3 <= |url| && url[q..q + 3] == "/p/"
  {
  }

  lemma MatchedId(url: string, j: nat)
    requires j <= |url| && MatchAt(AsWritten, url, j).Some?
    ensures var q := RunEnd(url, j + |Host|, {'/'}); var e := RunEnd(url, q + 3, {'/', '?'});
      q + 3 <= e && url[q + 3..e] == MatchAt(AsWritten, url, j).value
  {
  }

  lemma MatchedParts(url: string, j: nat)
    requires j <= |url| && MatchAt(AsWritten, url, j).Some?
    ensures var q := RunEnd(url, j + |Host|, {'/'}); var e := RunEnd(url, q + 3, {'/', '?'});
      IsLinkParts(url[j + |Host|..q], url[q + 3..e], url[e..])
  {
  }

  lemma LinkFromPieces(s: string, pre: string, a: string, seg: string, c: string, id: string, tail: string)
    requires s == pre + (a + seg + c + id + tail) && a == Host && c == "/p/"
    ensures s == pre + UserLink(seg, id, tail)
  {
  }

  lemma AssembleLink(url: string, j: nat, p: nat, q: nat, c: nat, e: nat, id: string)
    requires j <= p <= q <= c <= e <= |url|
    requires url[j..p] == Host && url[q..c] == "/p/" && url[c..e] == id
    ensures url == url[..j] + UserLink(url[p..q], id, url[e..])
  {
    Pieces(url, j, p, q, c, e);
    LinkFromPieces(url, url[..j], url[j..p], url[p..q], url[q..c], id, url[e..]);
  }

  /** Conversely, a match of the as-written pattern at `j` is a user-style link there. */
  lemma UserFormSound(url: string, j: nat)
    requires j <= |url| && MatchAt(AsWritten, url, j).Some?
    ensures var id := MatchAt(AsWritten, url, j).value;
      exists seg, tail :: IsLinkParts(seg, id, tail) && url == url[..j] + UserLink(seg, id, tail)
  {
    var id := MatchAt(AsWritten, url, j).value;
    var p := j + |Host|;
    var q := RunEnd(url, p, {'/'});
    var c := q + 3;
    var e := RunEnd(url, c, {'/', '?'});
    var seg, tail := url[p..q], url[e..];
    MatchedParts(url, j);
    MatchedHost(url, j);
    MatchedMarker(url, j);
    MatchedId(url, j);
    AssembleLink(url, j, p, q, c, e, id);
    assert IsLinkParts(seg, id, tail) && url == url[..j] + UserLink(seg, id, tail);
  }

  /**
   * `extractPostId` finds an id whenever the link holds a user-style
   * Instagram post link, and exactly that id when no match starts earlier.
   */
  lemma ExtractPostIdFinds(pre: string, seg: string, id: string, tail: string)
    requires IsLinkParts(seg, id, tail)
    ensures ExtractPostId(pre + UserLink(seg, id, tail)).Some?
    ensures (forall k :: 0 <= k < |pre| ==> MatchAt(AsWritten, pre + UserLink(seg, id, tail), k).None?)
            ==> ExtractPostId(pre + UserLink(seg, id, tail)) == Some(id)
  {
    UserFormExact(pre, seg, id, tail);
  }

  /** Every id `extractPostId` returns comes from a user-style link inside the string. */
  lemma ExtractPostIdSound(url: string)
    requires ExtractPostId(url).Some?
    ensures var id := ExtractPostId(url).value;
      exists pre, seg, tail :: IsLinkParts(seg, id, tail) && url == pre + UserLink(seg, id, tail)
  {
    var k :| 0 <= k <= |url| && MatchAt(AsWritten, url, k) == ExtractPostId(url);
    UserFormSound(url, k);
  }

  // ---------------------------------------------------------------- direct links

  lemma StartsAtChar(s: string, i: nat, lit: string, k: nat)
    requires k < |lit|
    ensures StartsAt(s, i, lit) ==> i + k < |s| && s[i + k] == lit[k]
  {
    if StartsAt(s, i, lit) {
      assert s[i + k] == s[i..i + |lit|][k];
    }
  }

  /** A match needs `instagram.com/` at its start and room for what follows it. */
  lemma MatchNeedsHost(pattern: Pattern, url: string, k: nat)
    requires k <= |url|
    requires || k + 19 > |url| + (if pattern == Corrected then 2 else 0)
             || url[k] != 'i'
             || (k + 13 < |url| && url[k + 13] != '/')
    ensures MatchAt(pattern, url, k).None?
  {
    StartsAtChar(url, k, Host, 0);
    StartsAtChar(url, k, Host, 13);
    StartsAtChar(url, k, Host + "p/", 0);
    StartsAtChar(url, k, Host + "p/", 13);
    if k + |Host| <= |url| {
      var q := RunEnd(url, k + |Host|, {'/'});
      StartsAtChar(url, q, "/p/", 2);
    }
  }

  /** `instagram.com/p/<id><tail>`: a direct post link. */
  function DirectLink(id: string, tail: string): string {
    Host + "p/" + id + tail
  }

  /** No match starts inside a prefix that has no `i`. */
  lemma NoMatchBefore(pattern: Pattern, a: string, rest: string)
    requires 'i' !in a
    ensures forall k :: 0 <= k < |a| ==> MatchAt(pattern, a + rest, k).None?
  {
    forall k | 0 <= k < |a|
      ensures MatchAt(pattern, a + rest, k).None?
    {
      assert (a + rest)[k] == a[k];
      MatchNeedsHost(pattern, a + rest, k);
    }
  }

  /** The leftmost match decides the search. */
  lemma SearchFindsFirst(pattern: Pattern, url: string, j: nat, id: string)
    requires j <= |url|
    requires forall k :: 0 <= k < j ==> MatchAt(pattern, url, k).None?
    requires MatchAt(pattern, url, j) == Some(id)
    ensures Search(pattern, url, 0) == Some(id)
  {
  }

  /** A direct link is read as a user segment `p`, which would need a second `/p/`. */
  lemma DirectLinkAtHost(a: string, id: string, tail: string)
    requires id != [] && '/' !in id && '?' !in id
    requires tail == [] || tail == "/"
    ensures MatchAt(AsWritten, a + DirectLink(id, tail), |a|).None?
  {
    var url := a + DirectLink(id, tail);
    var p := |a| + |Host|;
    var q := p + 1;
    assert url[p] == 'p' && url[q] == '/';
    RunEndAt(url, p, q, {'/'});
    StartsAtChar(url, q, "/p/", 2);
    if |id| >= 2 {
      assert url[q + 2] == id[1];
    } else if tail == [] {
      assert q + 3 > |url|;
    } else {
      assert q + 3 == |url|;
    }
  }

  /** Past the start of a direct link no match of the as-written pattern fits. */
  lemma NoMatchInsideDirectLink(a: string, id: string, tail: string, k: nat)
    requires '/' !in id && (tail == [] || tail == "/")
    requires |a| < k <= |a + DirectLink(id, tail)|
    ensures MatchAt(AsWritten, a + DirectLink(id, tail), k).None?
  {
    var url := a + DirectLink(id, tail);
    if k < |a| + |Host| {
      assert 'i' !in Host[1..];
      assert url[k] == Host[1..][k - |a| - 1];
    } else if k + 19 <= |url| {
      assert url[k + 13] == id[k + 13 - |a| - |Host| - 2];
    }
    MatchNeedsHost(AsWritten, url, k);
  }

  /**
   * The expression in `extractPostId` requires a path segment before `/p/`,
   * so it finds nothing in a direct post link `https://www.instagram.com/p/<id>/`,
   * the only form its own sample data uses.
   */
  lemma AsWrittenMissesDirectLink(a: string, id: string, tail: string)
    requires 'i' !in a
    requires id != [] && '/' !in id && '?' !in id
    requires tail == [] || tail == "/"
    ensures ExtractPostId(a + DirectLink(id, tail)) == None
  {
    var url := a + DirectLink(id, tail);
    NoMatchBefore(AsWritten, a, DirectLink(id, tail));
    DirectLinkAtHost(a, id, tail);
    forall k | |a| < k <= |url|
      ensures MatchAt(AsWritten, url, k).None?
    {
      NoMatchInsideDirectLink(a, id, tail, k);
    }
    assert forall k :: 0 <= k <= |url| ==> MatchAt(AsWritten, url, k).None?;
  }

  lemma DirectLinkHost(a: string, id: string, tail: string)
    ensures StartsAt(a + DirectLink(id, tail), |a|, Host + "p/")
  {
    StartsAtIntro(a + DirectLink(id, tail), |a|, Host + "p/");
  }

  lemma DirectLinkId(a: string, id: string, tail: string)
    requires '/' !in id && '?' !in id
    requires tail == [] || tail[0] == '/' || tail[0] == '?'
    ensures var url, c := a + DirectLink(id, tail), |a| + |Host| + 2;
      c + |id| <= |url| && RunEnd(url, c, {'/', '?'}) == c + |id| && url[c..c + |id|] == id
  {
    var url, c := a + DirectLink(id, tail), |a| + |Host| + 2;
    assert forall k :: c <= k < c + |id| ==> url[k] == id[k - c];
    assert c + |id| == |url| || url[c + |id|] == tail[0];
    CaptureOver(url, c, id);
  }

  /** The direct alternative of the corrected expression reads the id of a direct link. */
  lemma DirectLinkRead(a: string, id: string, tail: string)
    requires id != [] && '/' !in id && '?' !in id
    requires tail == [] || tail[0] == '/' || tail[0] == '?'
    ensures MatchAt(Corrected, a + DirectLink(id, tail), |a|) == Some(id)
  {
    DirectLinkHost(a, id, tail);
    DirectLinkId(a, id, tail);
  }

  /** The corrected expression reads the id of a direct post link. */
  lemma CorrectedReadsDirectLink(a: string, id: string, tail: string)
    requires 'i' !in a
    requires id != [] && '/' !in id && '?' !in id
    requires tail == [] || tail[0] == '/' || tail[0] == '?'
    ensures ExtractPostIdCorrected(a + DirectLink(id, tail)) == Some(id)
  {
    NoMatchBefore(Corrected, a, DirectLink(id, tail));
    DirectLinkRead(a, id, tail);
    SearchFindsFirst(Corrected, a + DirectLink(id, tail), |a|, id);
  }

  /** Wherever the expression in `extractPostId` finds an id, the corrected one finds one too. */
  lemma CorrectedFindsWhatAsWrittenFinds(url: string)
    requires ExtractPostId(url).Some?
    ensures ExtractPostIdCorrected(url).Some?
  {
    var k :| 0 <= k <= |url| && MatchAt(AsWritten, url, k) == ExtractPostId(url);
    assert MatchAt(Corrected, url, k).Some?;
  }

  lemma {:induction false} SearchAgree(url: string, j: nat)
    requires j <= |url|
    requires forall k :: j <= k <= |url| ==> MatchAt(Corrected, url, k) == MatchAt(AsWritten, url, k)
    ensures Search(Corrected, url, j) == Search(AsWritten, url, j)
    decreases |url| - j
  {
    if j < |url| {
      SearchAgree(url, j + 1);
    }
  }

  /** On a link with no direct `instagram.com/p/<id>` part, both expressions give the same answer. */
  lemma CorrectedAgreesOffDirectLinks(url: string)
    requires forall k :: 0 <= k <= |url| ==> DirectForm(url, k).None?
    ensures ExtractPostIdCorrected(url) == ExtractPostId(url)
  {
    if url != [] {
      SearchAgree(url, 0);
    }
  }
}
