/**
 * The two regular expressions of the content script, written as predicates
 * and deterministic scanners over strings:
 *   LGTM_RE = /(\W|^)lgtm(\W|$)/i
 *   PR_RE   = /\/nodejs\/([^\/]+)\/pull\/([^\/]+)\/?$/
 */
module Patterns {
  import opened Wrappers
  import opened Text

  // ---------------------------------------------------------------- LGTM_RE

  /** `lgtm` in any letter case occupies s[i..i+4] and is delimited on both
      sides by a non-word character or an end of the string. */
  predicate LgtmTokenAt(s: string, i: int)
  {
    && 0 <= i && i + 4 <= |s|
    && LowerChar(s[i]) == 'l' && LowerChar(s[i + 1]) == 'g'
    && LowerChar(s[i + 2]) == 't' && LowerChar(s[i + 3]) == 'm'
    && (i == 0 || !IsWordChar(s[i - 1]))
    && (i + 4 == |s| || !IsWordChar(s[i + 4]))
  }

  /** The first index at or after `from` where an lgtm token starts, if any. */
  function FirstLgtm(s: string, from: nat): (r: Option<nat>)
    ensures r.Some? ==> from <= r.value && LgtmTokenAt(s, r.value)
    ensures r.Some? ==> forall j :: from <= j < r.value ==> !LgtmTokenAt(s, j)
    ensures r.None? ==> forall j :: from <= j ==> !LgtmTokenAt(s, j)
    decreases |s| - from
  {
    if from + 4 > |s| then None
    else if LgtmTokenAt(s, from) then Some(from)
    else FirstLgtm(s, from + 1)
  }

  /** `LGTM_RE.test(s)`: true exactly when some position holds a delimited lgtm token. */
  function HasLgtm(s: string): (b: bool)
    ensures b <==> exists i :: LgtmTokenAt(s, i)
  {
    FirstLgtm(s, 0).Some?
  }

  // ------------------------------------------------------------------ PR_RE

  /** One path segment of `[^\/]+`: non-empty and slash-free. */
  predicate Segment(x: string)
  {
    |x| > 0 && '/' !in x
  }

  /** The path shape `/nodejs/<repo>/pull/<id>` with an optional trailing slash. */
  function PrPath(repo: string, id: string, slash: bool): string
  {
    "/nodejs/" + repo + "/pull/" + id + (if slash then "/" else "")
  }

  /** Index of the first `/` in s at or after i, or |s| if there is none. */
  function NextSlash(s: string, i: nat): (j: nat)
    requires i <= |s|
    ensures i <= j <= |s|
    ensures forall k :: i <= k < j ==> s[k] != '/'
    ensures j < |s| ==> s[j] == '/'
    decreases |s| - i
  {
    if i == |s| || s[i] == '/' then i else NextSlash(s, i + 1)
  }

  /** The first `/` at or after i is at j. */
  lemma NextSlashAt(s: string, i: nat, j: nat)
    requires i <= j <= |s|
    requires forall k :: i <= k < j ==> s[k] != '/'
    requires j < |s| ==> s[j] == '/'
    ensures NextSlash(s, i) == j
    decreases j - i
  {
    if i < j {
      NextSlashAt(s, i + 1, j);
    }
  }

  /** The `([^\/]+)\/?$` tail: an id segment with an optional trailing slash. */
  function ParseId(t: string): (r: Option<string>)
    ensures r.Some? ==> Segment(r.value) && (t == r.value || t == r.value + "/")
  {
    if Segment(t) then Some(t)
    else if |t| >= 2 && t[|t| - 1] == '/' && Segment(t[..|t| - 1]) then
      assert t == t[..|t| - 1] + "/";
      Some(t[..|t| - 1])
    else None
  }

  /** Every id segment, with or without its trailing slash, is recognised. */
  lemma ParseIdComplete(id: string, slash: bool)
    requires Segment(id)
    ensures ParseId(id + (if slash then "/" else "")) == Some(id)
  {
    if slash {
      var t := id + "/";
      assert t[..|t| - 1] == id;
      assert t[|t| - 1] == '/';
      assert !Segment(t);
      assert ParseId(t) == Some(id);
    } else {
      assert id + "" == id;
    }
  }

  /** Recognises a whole string of the `PrPath` shape (both ends anchored) and
      returns its repository and pull-request id. */
  function ParsePrPath(s: string): (r: Option<(string, string)>)
    ensures r.Some? ==> Segment(r.value.0) && Segment(r.value.1)
    ensures r.Some? ==> s == PrPath(r.value.0, r.value.1, false) || s == PrPath(r.value.0, r.value.1, true)
  {
    if !HasAt(s, 0, "/nodejs/") then None
    else
      var k := NextSlash(s, 8);
      if k == 8 || !HasAt(s, k, "/pull/") then None
      else
        var repo := s[8..k];
        var idPart := s[k + 6..];
        match ParseId(idPart)
        case None => None
        case Some(id) =>
          PrPathSplit(s, k, repo, idPart);
          Some((repo, id))
  }

  /** How a recognised path decomposes around the repository segment. */
  lemma PrPathSplit(s: string, k: nat, repo: string, idPart: string)
    requires HasAt(s, 0, "/nodejs/") && 8 < k && HasAt(s, k, "/pull/")
    requires forall j :: 8 <= j < k ==> s[j] != '/'
    requires repo == s[8..k] && idPart == s[k + 6..]
    ensures Segment(repo)
    ensures s == "/nodejs/" + repo + "/pull/" + idPart
  {
    assert forall c :: c in repo ==> c != '/';
    assert s == s[..8] + s[8..k] + s[k..k + 6] + s[k + 6..];
  }

  /** Every path of the `PrPath` shape is recognised, with its own repository and id. */
  lemma ParsePrPathComplete(repo: string, id: string, slash: bool)
    requires Segment(repo) && Segment(id)
    ensures ParsePrPath(PrPath(repo, id, slash)) == Some((repo, id))
  {
    var tail := id + (if slash then "/" else "");
    var s := PrPath(repo, id, slash);
    assert s == "/nodejs/" + repo + "/pull/" + tail;
    var k := 8 + |repo|;
    assert s[..8] == "/nodejs/";
    assert s[8..k] == repo;
    assert s[k..k + 6] == "/pull/";
    assert s[k + 6..] == tail;
    assert forall j :: 8 <= j < k ==> s[j] == repo[j - 8];
    NextSlashAt(s, 8, k);
    ParseIdComplete(id, slash);
  }

  /** The unanchored regex matches a suffix of `path` starting at p. */
  predicate PrSuffixAt(path: string, p: int)
  {
    0 <= p <= |path| && ParsePrPath(path[p..]).Some?
  }

  /** The first start position at or after `from` where PR_RE matches. */
  function FirstPrSuffix(path: string, from: nat): (r: Option<nat>)
    requires from <= |path|
    ensures r.Some? ==> from <= r.value && PrSuffixAt(path, r.value)
    ensures r.None? ==> forall p :: from <= p ==> !PrSuffixAt(path, p)
    decreases |path| - from
  {
    if ParsePrPath(path[from..]).Some? then Some(from)
    else if from == |path| then None
    else FirstPrSuffix(path, from + 1)
  }

  /** `getPR`: the pull-request URL for a page path, or null when PR_RE does not match. */
  function GetPR(path: string): (r: Option<string>)
    ensures r.Some? <==> exists p :: PrSuffixAt(path, p)
    ensures r.Some? ==> r.value == "https://github.com" + path
  {
    if FirstPrSuffix(path, 0).Some? then Some("https://github.com" + path) else None
  }

  /** getPR succeeds exactly when the path ends in `/nodejs/<repo>/pull/<id>`,
      optionally followed by one slash. */
  lemma GetPRShape(path: string)
    ensures GetPR(path).Some? <==>
      exists pre, repo, id, slash :: Segment(repo) && Segment(id) && path == pre + PrPath(repo, id, slash)
  {
    if GetPR(path).Some? {
      var p :| PrSuffixAt(path, p);
      var rid := ParsePrPath(path[p..]).value;
      assert path == path[..p] + path[p..];
      if path[p..] == PrPath(rid.0, rid.1, false) {
        assert path == path[..p] + PrPath(rid.0, rid.1, false);
      } else {
        assert path == path[..p] + PrPath(rid.0, rid.1, true);
      }
    }
    if exists pre, repo, id, slash :: Segment(repo) && Segment(id) && path == pre + PrPath(repo, id, slash) {
      var pre, repo, id, slash :| Segment(repo) && Segment(id) && path == pre + PrPath(repo, id, slash);
      assert path[|pre|..] == PrPath(repo, id, slash);
      ParsePrPathComplete(repo, id, slash);
      assert PrSuffixAt(path, |pre|);
    }
  }
}
