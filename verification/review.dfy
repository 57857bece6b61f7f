/**
 * The content script end to end: recognise the pull-request page, build the
 * reviewer ledger, apply the gate, parse the collaborator directory and
 * format the metadata. Page scraping and the README fetch are inputs.
 */
module Review {
  import opened Wrappers
  import Patterns
  import Reviews
  import Gate
  import Collaborators
  import Trailer

  /** What the script shows the user. */
  datatype Outcome =
    | NotPullRequest                 // getPR returned null: the script exits silently
    | NotReady(rejecting: seq<string>)
    | NoApprovals
    | CollaboratorsUnavailable       // the README fetch failed or held no record
    | Metadata(lines: seq<string>)

  /** One run of the script. `readme` is the fetched README text, or None when
      the fetch failed. */
  function Run(path: string, items: seq<Reviews.WidgetItem>, comments: seq<Reviews.Comment>,
               readme: Option<string>): (r: Outcome)
    ensures r.NotPullRequest? <==> Patterns.GetPR(path).None?
  {
    match Patterns.GetPR(path)
    case None => NotPullRequest
    case Some(url) => Gated(url, Reviews.GetReviews(items, comments), readme)
  }

  /** The steps after the page has been recognised: the gate, then the
      directory, then the formatting. */
  function Gated(url: string, meta: Reviews.Meta, readme: Option<string>): (r: Outcome)
    ensures !r.NotPullRequest?
    ensures r.NotReady? <==> meta.rejections > 0
    ensures r.NoApprovals? <==> meta.rejections == 0 && meta.approvals == 0
    ensures r.Metadata? ==> |r.lines| >= 1 && r.lines[0] == "PR-URL: " + url
  {
    match Gate.Check(meta)
    case NotReady(xs) => NotReady(xs)
    case NoApprovals => NoApprovals
    case Ready =>
      if readme.None? then CollaboratorsUnavailable
      else match Collaborators.ParseDirectory(readme.value)
        case Failure(_) => CollaboratorsUnavailable
        case Success(dir) => Metadata(Trailer.FormatMeta(url, meta, dir))
  }

  /** The metadata starts with the page's own URL. */
  lemma RunPrUrl(path: string, items: seq<Reviews.WidgetItem>, comments: seq<Reviews.Comment>, readme: Option<string>)
    ensures var r := Run(path, items, comments, readme);
      r.Metadata? ==> |r.lines| >= 1 && r.lines[0] == "PR-URL: https://github.com" + path
  {
    if Run(path, items, comments, readme).Metadata? {
      var url := Patterns.GetPR(path).value;
      UrlLine(path);
    }
  }

  /** The `PR-URL:` line is the literal prefix followed by the path. */
  lemma UrlLine(path: string)
    ensures "PR-URL: " + ("https://github.com" + path) == "PR-URL: https://github.com" + path
  {
    var a, b := "PR-URL: ", "https://github.com";
    assert a + b == "PR-URL: https://github.com";
    assert a + (b + path) == (a + b) + path;
  }

  /** Not ready lists exactly the rejecting ledger logins, and only a red
      widget entry can cause it. */
  lemma RunNotReady(path: string, items: seq<Reviews.WidgetItem>, comments: seq<Reviews.Comment>, readme: Option<string>)
    ensures var r := Run(path, items, comments, readme);
      r.NotReady? ==> forall x :: (x in r.rejecting
        <==> (x, Reviews.Rejected) in Reviews.GetReviews(items, comments).reviewers)
    ensures Run(path, items, comments, readme).NotReady? ==>
      exists i :: 0 <= i < |items| && Reviews.ApprovedIcon !in items[i].iconClasses
  {
    if Run(path, items, comments, readme).NotReady? {
      var w := Reviews.WidgetPass(Reviews.Empty, items);
      assert Reviews.GetReviews(items, comments).rejections == w.rejections;
      Reviews.GreensBound(items);
    }
  }

  /** "No approvals" is reported exactly when the page is a pull request with
      no widget entry and no lgtm comment. */
  lemma RunNoApprovals(path: string, items: seq<Reviews.WidgetItem>, comments: seq<Reviews.Comment>, readme: Option<string>)
    ensures Run(path, items, comments, readme).NoApprovals?
      <==> Patterns.GetPR(path).Some? && |items| == 0 && Reviews.RawReviews(comments) == []
  {
    var logins := Reviews.RawReviews(comments);
    var w := Reviews.WidgetPass(Reviews.Empty, items);
    var m := Reviews.GetReviews(items, comments);
    if Patterns.GetPR(path).Some? && m.approvals == 0 && m.rejections == 0 {
      assert |items| == 0;
      assert w == Reviews.Empty;
      assert |m.reviewers| == 0;
      if |logins| > 0 {
        Reviews.LgtmPassKeys(w, logins, logins[0]);
        assert false;
      }
    }
    if |items| == 0 && logins == [] {
      assert w == Reviews.Empty;
    }
  }

  /** Metadata is produced only from a fetched, parseable directory and a
      ledger in which every reviewer approved. */
  lemma RunMetadata(path: string, items: seq<Reviews.WidgetItem>, comments: seq<Reviews.Comment>, readme: Option<string>)
    ensures Run(path, items, comments, readme).Metadata? ==>
      readme.Some? && Collaborators.MatchesFrom(readme.value, 0)
    ensures var m := Reviews.GetReviews(items, comments);
      Run(path, items, comments, readme).Metadata? ==>
        m.rejections == 0 && m.approvals > 0
        && forall i :: 0 <= i < |m.reviewers| ==> m.reviewers[i].1 == Reviews.Approved
  {
    Reviews.GetReviewsSound(items, comments);
  }

  /** The directory is consulted only once the gate passes: a missing or
      unparseable README surfaces only for a ready pull request. */
  lemma RunCollaboratorsUnavailable(path: string, items: seq<Reviews.WidgetItem>, comments: seq<Reviews.Comment>, readme: Option<string>)
    ensures Run(path, items, comments, readme).CollaboratorsUnavailable?
      <==> Patterns.GetPR(path).Some? && Gate.Check(Reviews.GetReviews(items, comments)).Ready?
           && (readme.None? || !Collaborators.MatchesFrom(readme.value, 0))
  {
  }
}
