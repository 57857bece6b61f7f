/**
 * The readiness gate the content script applies to getReviews' result
 * before any metadata is formatted.
 */
module Gate {
  import opened Reviews

  /** The three outcomes of the gate. */
  datatype Readiness = NotReady(rejecting: seq<string>) | NoApprovals | Ready

  /** The logins whose entry is REJECTED, in ledger order. */
  function Rejecting(rs: seq<Entry>): (r: seq<string>)
    ensures |r| == Count(rs, Rejected)
    ensures forall x :: x in r <==> (x, Rejected) in rs
  {
    if |rs| == 0 then []
    else
      var t := Rejecting(rs[1..]);
      assert forall e :: e in rs <==> e == rs[0] || e in rs[1..];
      (if rs[0].1 == Rejected then [rs[0].0] else []) + t
  }

  /** Collecting rejecting logins respects ledger order: it distributes over concatenation. */
  lemma {:induction false} RejectingAppend(a: seq<Entry>, b: seq<Entry>)
    ensures Rejecting(a + b) == Rejecting(a) + Rejecting(b)
    decreases |a|
  {
    if |a| > 0 {
      assert (a + b)[1..] == a[1..] + b;
      RejectingAppend(a[1..], b);
    } else {
      assert a + b == b;
    }
  }

  /** No REJECTED entry is counted only when every entry is APPROVED. */
  lemma {:induction false} NoRejectedAllApproved(rs: seq<Entry>)
    ensures Count(rs, Rejected) == 0 <==> forall i :: 0 <= i < |rs| ==> rs[i].1 == Approved
    decreases |rs|
  {
    if |rs| > 0 {
      NoRejectedAllApproved(rs[1..]);
      assert forall i :: 1 <= i < |rs| ==> rs[i] == rs[1..][i - 1];
    }
  }

  /** The gate: rejections first, then the absence of approvals. */
  function Check(m: Meta): (r: Readiness)
    ensures r.NotReady? <==> m.rejections > 0
    ensures r.NotReady? ==> forall x :: x in r.rejecting <==> (x, Rejected) in m.reviewers
    ensures r.NoApprovals? <==> m.rejections == 0 && m.approvals == 0
    ensures r.Ready? <==> m.rejections == 0 && m.approvals > 0
    ensures Sound(m) && !r.NotReady? ==> forall i :: 0 <= i < |m.reviewers| ==> m.reviewers[i].1 == Approved
    ensures Exact(m) && r.NotReady? ==> |r.rejecting| == m.rejections
    ensures Exact(m) && r.Ready? ==> |m.reviewers| == m.approvals
  {
    NoRejectedAllApproved(m.reviewers);
    if m.rejections > 0 then NotReady(Rejecting(m.reviewers))
    else if m.approvals == 0 then NoApprovals
    else
      assert Exact(m) ==> |m.reviewers| == m.approvals by {
        if Exact(m) {
          ApprovedCount(m.reviewers);
        }
      }
      Ready
  }

  /** A ledger with no REJECTED entry counts every entry as APPROVED. */
  lemma {:induction false} ApprovedCount(rs: seq<Entry>)
    requires Count(rs, Rejected) == 0
    ensures Count(rs, Approved) == |rs|
    decreases |rs|
  {
    if |rs| > 0 {
      ApprovedCount(rs[1..]);
    }
  }

  /** A reviewer shown first red then green: the gate stops the script as not
      ready, yet the list of rejecting reviewers it reports is empty. */
  lemma DuplicateWidgetNotReady()
    ensures Check(WidgetPass(Empty, [WidgetItem("/alice", ["text-red"]), WidgetItem("/alice", [ApprovedIcon])])) == NotReady([])
  {
    DuplicateWidgetOvercounts();
    var rs: seq<Entry> := [("alice", Approved)];
    assert Rejecting(rs) == [] + Rejecting(rs[1..]);
  }
}
