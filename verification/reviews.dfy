/**
 * `getReviews`: the reviewer ledger built from the merge-status widget and
 * from lgtm comments. The ledger is a JavaScript `Map`, modelled as a
 * sequence of (login, status) pairs in insertion order.
 */
module Reviews {
  import opened Wrappers
  import opened Text
  import Patterns

  datatype Status = Approved | Rejected

  type Entry = (string, Status)

  /** getReviews' `meta`: the reviewers map plus its two counters. */
  datatype Meta = Meta(reviewers: seq<Entry>, approvals: nat, rejections: nat)

  const Empty := Meta([], 0, 0)

  // ------------------------------------------------------------ the map

  /** `map.keys()`, in insertion order. */
  function Keys(rs: seq<Entry>): (ks: seq<string>)
    ensures |ks| == |rs|
    ensures forall i :: 0 <= i < |rs| ==> ks[i] == rs[i].0
  {
    if |rs| == 0 then [] else [rs[0].0] + Keys(rs[1..])
  }

  predicate Distinct(ks: seq<string>)
  {
    forall i, j :: 0 <= i < j < |ks| ==> ks[i] != ks[j]
  }

  /** `map.get(k)`, with None for a missing key. */
  function Lookup(rs: seq<Entry>, k: string): (r: Option<Status>)
    ensures r.Some? <==> k in Keys(rs)
    ensures r.Some? ==> (k, r.value) in rs
  {
    if |rs| == 0 then None
    else if rs[0].0 == k then Some(rs[0].1)
    else
      assert Keys(rs) == [rs[0].0] + Keys(rs[1..]);
      Lookup(rs[1..], k)
  }

  /** With unique keys, the value found is the one stored under the key. */
  lemma {:induction false} LookupDistinct(rs: seq<Entry>, i: int)
    requires Distinct(Keys(rs)) && 0 <= i < |rs|
    ensures Lookup(rs, rs[i].0) == Some(rs[i].1)
  {
    if i > 0 {
      assert Keys(rs[1..]) == Keys(rs)[1..];
      LookupDistinct(rs[1..], i - 1);
      assert Keys(rs)[0] != Keys(rs)[i];
    }
  }

  /** Number of entries holding status st. */
  function Count(rs: seq<Entry>, st: Status): nat
  {
    if |rs| == 0 then 0 else (if rs[0].1 == st then 1 else 0) + Count(rs[1..], st)
  }

  lemma {:induction false} CountAppend(a: seq<Entry>, b: seq<Entry>, st: Status)
    ensures Count(a + b, st) == Count(a, st) + Count(b, st)
  {
    if |a| > 0 {
      assert (a + b)[1..] == a[1..] + b;
      CountAppend(a[1..], b, st);
    } else {
      assert a + b == b;
    }
  }

  /** `map.set(k, v)`: an existing key keeps its position and takes the new
      value; a new key is appended. */
  function Set(rs: seq<Entry>, k: string, v: Status): (r: seq<Entry>)
    ensures |r| == |rs| || r == rs + [(k, v)]
  {
    if |rs| == 0 then [(k, v)]
    else if rs[0].0 == k then [(k, v)] + rs[1..]
    else
      var t := Set(rs[1..], k, v);
      assert rs + [(k, v)] == [rs[0]] + (rs[1..] + [(k, v)]);
      [rs[0]] + t
  }

  /** After set, the key reads back the new value and every other key is unchanged. */
  lemma {:induction false} SetLookup(rs: seq<Entry>, k: string, v: Status, k': string)
    ensures Lookup(Set(rs, k, v), k') == if k' == k then Some(v) else Lookup(rs, k')
  {
    if |rs| > 0 && rs[0].0 != k {
      SetLookup(rs[1..], k, v, k');
      assert ([rs[0]] + Set(rs[1..], k, v))[1..] == Set(rs[1..], k, v);
    }
  }

  /** set keeps the key order of a present key and appends an absent one. */
  lemma {:induction false} SetShape(rs: seq<Entry>, k: string, v: Status)
    ensures Lookup(rs, k).Some? ==> Keys(Set(rs, k, v)) == Keys(rs)
    ensures Lookup(rs, k).None? ==> Set(rs, k, v) == rs + [(k, v)]
  {
    if |rs| > 0 {
      assert Keys(rs) == [rs[0].0] + Keys(rs[1..]);
      if rs[0].0 == k {
        assert Keys(Set(rs, k, v)) == [k] + Keys(rs[1..]);
      } else {
        SetShape(rs[1..], k, v);
        var r := Set(rs, k, v);
        assert r == [rs[0]] + Set(rs[1..], k, v);
        assert Keys(r) == [rs[0].0] + Keys(Set(rs[1..], k, v));
      }
    }
  }

  /** set never duplicates a key. */
  lemma SetDistinct(rs: seq<Entry>, k: string, v: Status)
    requires Distinct(Keys(rs))
    ensures Distinct(Keys(Set(rs, k, v)))
  {
    SetShape(rs, k, v);
    if Lookup(rs, k).None? {
      var ks := Keys(rs + [(k, v)]);
      assert forall i :: 0 <= i < |rs| ==> ks[i] == Keys(rs)[i];
      assert ks[|rs|] == k;
    }
  }

  /** set moves exactly one entry into status v, out of its old status if it had one. */
  lemma {:induction false} SetCount(rs: seq<Entry>, k: string, v: Status, st: Status)
    ensures Count(Set(rs, k, v), st) + (if Lookup(rs, k) == Some(st) then 1 else 0)
         == Count(rs, st) + (if v == st then 1 else 0)
  {
    if |rs| > 0 && rs[0].0 != k {
      SetCount(rs[1..], k, v, st);
      assert ([rs[0]] + Set(rs[1..], k, v))[1..] == Set(rs[1..], k, v);
    } else if |rs| > 0 {
      assert ([(k, v)] + rs[1..])[1..] == rs[1..];
    }
  }

  /** The counters are never below the number of entries they count. */
  predicate Sound(m: Meta)
  {
    && Distinct(Keys(m.reviewers))
    && Count(m.reviewers, Approved) <= m.approvals
    && Count(m.reviewers, Rejected) <= m.rejections
  }

  /** The counters equal the number of entries they count. */
  predicate Exact(m: Meta)
  {
    && Distinct(Keys(m.reviewers))
    && Count(m.reviewers, Approved) == m.approvals
    && Count(m.reviewers, Rejected) == m.rejections
  }

  /** Setting a key while bumping the counter of its new status keeps the counters sound,
      and keeps them exact when the key was absent. */
  lemma SetBumpSound(m: Meta, k: string, v: Status, r: Meta)
    requires r.reviewers == Set(m.reviewers, k, v)
    requires r.approvals == m.approvals + (if v == Approved then 1 else 0)
    requires r.rejections == m.rejections + (if v == Rejected then 1 else 0)
    ensures Sound(m) ==> Sound(r)
    ensures Exact(m) && Lookup(m.reviewers, k).None? ==> Exact(r)
  {
    SetCount(m.reviewers, k, v, Approved);
    SetCount(m.reviewers, k, v, Rejected);
    if Distinct(Keys(m.reviewers)) {
      SetDistinct(m.reviewers, k, v);
    }
  }

  // ------------------------------------------------------ widget pass

  /** One finalized entry of the merge-status widget: the reviewer link's
      `href` and the class list of the entry's icon. */
  datatype WidgetItem = WidgetItem(href: string, iconClasses: seq<string>)

  /** The icon class that marks an approval. */
  const ApprovedIcon := "text-green"

  /** An entry is an approval iff its icon carries the green class. */
  function VerdictOf(item: WidgetItem): Status
  {
    if ApprovedIcon in item.iconClasses then Approved else Rejected
  }

  /** The ledger key of a widget entry. */
  function WidgetLogin(item: WidgetItem): (r: string)
    ensures IsLower(r)
    ensures |item.href| > 0 ==> |r| == |item.href| - 1
  {
    LoginOf(item.href)
  }

  /** One iteration of the widget loop: bump the matching counter, set the entry. */
  function WidgetStep(m: Meta, item: WidgetItem): (r: Meta)
    ensures ApprovedIcon in item.iconClasses ==> r.approvals == m.approvals + 1 && r.rejections == m.rejections
    ensures ApprovedIcon !in item.iconClasses ==> r.rejections == m.rejections + 1 && r.approvals == m.approvals
    ensures r.reviewers == Set(m.reviewers, LoginOf(item.href), if ApprovedIcon in item.iconClasses then Approved else Rejected)
  {
    var st := VerdictOf(item);
    Meta(Set(m.reviewers, WidgetLogin(item), st),
         if st == Approved then m.approvals + 1 else m.approvals,
         if st == Rejected then m.rejections + 1 else m.rejections)
  }

  /** The entry keyed by the login now holds the verdict; other keys are untouched;
      the counters stay sound, and exact if the login was new. */
  lemma WidgetStepEffect(m: Meta, item: WidgetItem)
    ensures Lookup(WidgetStep(m, item).reviewers, WidgetLogin(item)) == Some(VerdictOf(item))
    ensures forall k :: k != WidgetLogin(item) ==> Lookup(WidgetStep(m, item).reviewers, k) == Lookup(m.reviewers, k)
    ensures Sound(m) ==> Sound(WidgetStep(m, item))
    ensures Exact(m) && Lookup(m.reviewers, WidgetLogin(item)).None? ==> Exact(WidgetStep(m, item))
  {
    var r := WidgetStep(m, item);
    SetLookup(m.reviewers, WidgetLogin(item), VerdictOf(item), WidgetLogin(item));
    forall k | k != WidgetLogin(item)
      ensures Lookup(r.reviewers, k) == Lookup(m.reviewers, k)
    {
      SetLookup(m.reviewers, WidgetLogin(item), VerdictOf(item), k);
    }
    SetBumpSound(m, WidgetLogin(item), VerdictOf(item), r);
  }

  /** Number of widget entries with the green icon. */
  function Greens(items: seq<WidgetItem>): nat
  {
    if |items| == 0 then 0 else (if ApprovedIcon in items[0].iconClasses then 1 else 0) + Greens(items[1..])
  }

  /** items[i] is the last widget entry for its login. */
  predicate LastFor(items: seq<WidgetItem>, i: int)
  {
    0 <= i < |items| && forall j :: i < j < |items| ==> WidgetLogin(items[j]) != WidgetLogin(items[i])
  }

  /** No login occurs twice among the widget entries. */
  predicate DistinctLogins(items: seq<WidgetItem>)
  {
    forall i, j :: 0 <= i < j < |items| ==> WidgetLogin(items[i]) != WidgetLogin(items[j])
  }

  /** The login of some widget entry is k. */
  predicate Mentions(items: seq<WidgetItem>, k: string)
  {
    exists i :: 0 <= i < |items| && WidgetLogin(items[i]) == k
  }

  /** Fewer green icons than entries means some entry is red. */
  lemma {:induction false} GreensBound(items: seq<WidgetItem>)
    ensures Greens(items) <= |items|
    ensures Greens(items) < |items| ==> exists i :: 0 <= i < |items| && ApprovedIcon !in items[i].iconClasses
    decreases |items|
  {
    if |items| > 0 {
      GreensBound(items[1..]);
      if Greens(items) < |items| && ApprovedIcon in items[0].iconClasses {
        var i :| 0 <= i < |items[1..]| && ApprovedIcon !in items[1..][i].iconClasses;
        assert items[1..][i] == items[i + 1];
      }
    }
  }

  /** The widget loop over all entries. */
  function WidgetPass(m: Meta, items: seq<WidgetItem>): (r: Meta)
    ensures r.approvals == m.approvals + Greens(items)
    ensures r.rejections == m.rejections + (|items| - Greens(items))
    decreases |items|
  {
    if |items| == 0 then m else WidgetPass(WidgetStep(m, items[0]), items[1..])
  }

  /** Logins absent from the widget keep whatever the ledger held before. */
  lemma {:induction false} WidgetPassUntouched(m: Meta, items: seq<WidgetItem>, k: string)
    requires !Mentions(items, k)
    ensures Lookup(WidgetPass(m, items).reviewers, k) == Lookup(m.reviewers, k)
    decreases |items|
  {
    if |items| > 0 {
      WidgetStepEffect(m, items[0]);
      assert WidgetLogin(items[0]) != k;
      assert !Mentions(items[1..], k) by {
        forall i | 0 <= i < |items[1..]| ensures WidgetLogin(items[1..][i]) != k {
          assert items[1..][i] == items[i + 1];
        }
      }
      WidgetPassUntouched(WidgetStep(m, items[0]), items[1..], k);
    }
  }

  /** Last writer wins: each login ends with the verdict of its last widget entry. */
  lemma {:induction false} WidgetPassLastWins(m: Meta, items: seq<WidgetItem>, i: int)
    requires LastFor(items, i)
    ensures Lookup(WidgetPass(m, items).reviewers, WidgetLogin(items[i])) == Some(VerdictOf(items[i]))
    decreases |items|
  {
    var m' := WidgetStep(m, items[0]);
    var rest := items[1..];
    if i == 0 {
      WidgetStepEffect(m, items[0]);
      assert !Mentions(rest, WidgetLogin(items[0])) by {
        forall j | 0 <= j < |rest| ensures WidgetLogin(rest[j]) != WidgetLogin(items[0]) {
          assert rest[j] == items[j + 1];
        }
      }
      WidgetPassUntouched(m', rest, WidgetLogin(items[0]));
    } else {
      assert rest[i - 1] == items[i];
      assert LastFor(rest, i - 1) by {
        forall j | i - 1 < j < |rest| ensures WidgetLogin(rest[j]) != WidgetLogin(rest[i - 1]) {
          assert rest[j] == items[j + 1];
        }
      }
      WidgetPassLastWins(m', rest, i - 1);
    }
  }

  /** The widget loop keeps the counters sound. */
  lemma {:induction false} WidgetPassSound(m: Meta, items: seq<WidgetItem>)
    requires Sound(m)
    ensures Sound(WidgetPass(m, items))
    decreases |items|
  {
    if |items| > 0 {
      WidgetStepEffect(m, items[0]);
      WidgetPassSound(WidgetStep(m, items[0]), items[1..]);
    }
  }

  /** With pairwise distinct, previously absent logins the counters stay exact. */
  lemma {:induction false} WidgetPassExact(m: Meta, items: seq<WidgetItem>)
    requires Exact(m) && DistinctLogins(items)
    requires forall i :: 0 <= i < |items| ==> Lookup(m.reviewers, WidgetLogin(items[i])).None?
    ensures Exact(WidgetPass(m, items))
    decreases |items|
  {
    if |items| > 0 {
      var m' := WidgetStep(m, items[0]);
      var rest := items[1..];
      WidgetStepEffect(m, items[0]);
      forall i | 0 <= i < |rest|
        ensures Lookup(m'.reviewers, WidgetLogin(rest[i])).None?
      {
        assert rest[i] == items[i + 1];
      }
      assert DistinctLogins(rest) by {
        forall i, j | 0 <= i < j < |rest| ensures WidgetLogin(rest[i]) != WidgetLogin(rest[j]) {
          assert rest[i] == items[i + 1] && rest[j] == items[j + 1];
        }
      }
      WidgetPassExact(m', rest);
    }
  }

  // -------------------------------------------------------- lgtm pass

  /** One iteration of the lgtm loop: an absent login is added as approved. */
  function LgtmStep(m: Meta, login: string): (r: Meta)
    ensures Lookup(m.reviewers, login).Some? ==> r == m
    ensures Lookup(m.reviewers, login).None? ==>
      r == Meta(m.reviewers + [(login, Approved)], m.approvals + 1, m.rejections)
  {
    SetShape(m.reviewers, login, Approved);
    if Lookup(m.reviewers, login).Some? then m
    else Meta(Set(m.reviewers, login, Approved), m.approvals + 1, m.rejections)
  }

  /** r grows m by appending approvals only: the rejections, the earlier
      entries and their order are kept, every new entry is approved, and
      approvals grew by the number of new entries. */
  predicate AppendsApprovals(m: Meta, r: Meta)
  {
    && r.rejections == m.rejections
    && |m.reviewers| <= |r.reviewers| && r.reviewers[..|m.reviewers|] == m.reviewers
    && (forall i :: |m.reviewers| <= i < |r.reviewers| ==> r.reviewers[i].1 == Approved)
    && r.approvals == m.approvals + (|r.reviewers| - |m.reviewers|)
  }

  lemma AppendsApprovalsTrans(a: Meta, b: Meta, c: Meta)
    requires AppendsApprovals(a, b) && AppendsApprovals(b, c)
    ensures AppendsApprovals(a, c)
  {
    assert c.reviewers[..|a.reviewers|] == c.reviewers[..|b.reviewers|][..|a.reviewers|];
  }

  /** The lgtm loop over the logins of lgtm commenters: existing entries keep
      their status and position, new ones are appended as approved and counted. */
  function LgtmPass(m: Meta, logins: seq<string>): (r: Meta)
    ensures AppendsApprovals(m, r)
    decreases |logins|
  {
    if |logins| == 0 then
      assert m.reviewers[..|m.reviewers|] == m.reviewers;
      m
    else
      var m' := LgtmStep(m, logins[0]);
      var r := LgtmPass(m', logins[1..]);
      assert m'.reviewers[..|m.reviewers|] == m.reviewers;
      AppendsApprovalsTrans(m, m', r);
      r
  }

  /** After the lgtm pass the ledger holds exactly the earlier keys and the lgtm logins. */
  lemma {:induction false} LgtmPassKeys(m: Meta, logins: seq<string>, k: string)
    ensures Lookup(LgtmPass(m, logins).reviewers, k).Some? <==> Lookup(m.reviewers, k).Some? || k in logins
    decreases |logins|
  {
    if |logins| > 0 {
      var m' := LgtmStep(m, logins[0]);
      SetLookup(m.reviewers, logins[0], Approved, k);
      SetShape(m.reviewers, logins[0], Approved);
      LgtmPassKeys(m', logins[1..], k);
      assert k in logins <==> k == logins[0] || k in logins[1..];
    }
  }

  /** The lgtm pass keeps the counters sound, and exact. */
  lemma {:induction false} LgtmPassCounters(m: Meta, logins: seq<string>)
    ensures Sound(m) ==> Sound(LgtmPass(m, logins))
    ensures Exact(m) ==> Exact(LgtmPass(m, logins))
    decreases |logins|
  {
    if |logins| > 0 {
      var m' := LgtmStep(m, logins[0]);
      if Lookup(m.reviewers, logins[0]).None? {
        SetShape(m.reviewers, logins[0], Approved);
        SetBumpSound(m, logins[0], Approved, m');
      }
      LgtmPassCounters(m', logins[1..]);
    }
  }

  /** The lgtm pass can be run in two pieces. */
  lemma {:induction false} LgtmPassAppend(m: Meta, a: seq<string>, b: seq<string>)
    ensures LgtmPass(m, a + b) == LgtmPass(LgtmPass(m, a), b)
    decreases |a|
  {
    if |a| > 0 {
      assert (a + b)[0] == a[0];
      assert (a + b)[1..] == a[1..] + b;
      LgtmPassAppend(LgtmStep(m, a[0]), a[1..], b);
    } else {
      assert a + b == b;
    }
  }

  /** Logins already in the ledger leave it untouched. */
  lemma {:induction false} LgtmPassKnown(m: Meta, logins: seq<string>)
    requires forall x :: x in logins ==> Lookup(m.reviewers, x).Some?
    ensures LgtmPass(m, logins) == m
    decreases |logins|
  {
    if |logins| > 0 {
      assert logins[0] in logins;
      assert forall x :: x in logins[1..] ==> x in logins;
      LgtmPassKnown(m, logins[1..]);
    }
  }

  /** Running the lgtm pass a second time changes nothing. */
  lemma LgtmPassIdempotent(m: Meta, logins: seq<string>)
    ensures LgtmPass(LgtmPass(m, logins), logins) == LgtmPass(m, logins)
  {
    forall x | x in logins ensures Lookup(LgtmPass(m, logins).reviewers, x).Some? {
      LgtmPassKeys(m, logins, x);
    }
    LgtmPassKnown(LgtmPass(m, logins), logins);
  }

  /** A repeated lgtm commenter has no further effect. */
  lemma LgtmPassRepeat(m: Meta, logins: seq<string>, x: string)
    requires x in logins
    ensures LgtmPass(m, logins + [x]) == LgtmPass(m, logins)
  {
    LgtmPassAppend(m, logins, [x]);
    LgtmPassKeys(m, logins, x);
    LgtmPassKnown(LgtmPass(m, logins), [x]);
  }

  // ----------------------------------------------------- lgtm comments

  /** A top-level timeline comment: the author link's `href` (None when the
      link is missing) and the body's inner HTML (None when there is no body). */
  datatype Comment = Comment(authorHref: Option<string>, body: Option<string>)

  /** The comment has a non-empty author link and a body that matches LGTM_RE. */
  predicate IsLgtmComment(c: Comment)
  {
    c.authorHref.Some? && |c.authorHref.value| > 0 && c.body.Some? && Patterns.HasLgtm(c.body.value)
  }

  /** `getRawReviews`: the logins of lgtm comments, in page order. */
  function RawReviews(cs: seq<Comment>): (r: seq<string>)
    ensures |r| <= |cs|
    ensures forall x :: x in r ==> IsLower(x)
    ensures forall x :: x in r <==> exists i :: 0 <= i < |cs| && IsLgtmComment(cs[i]) && LoginOf(cs[i].authorHref.value) == x
  {
    if |cs| == 0 then []
    else
      var t := RawReviews(cs[1..]);
      assert forall i :: 1 <= i < |cs| ==> cs[i] == cs[1..][i - 1];
      (if IsLgtmComment(cs[0]) then [LoginOf(cs[0].authorHref.value)] else []) + t
  }

  /** Collecting logins keeps page order and multiplicity: it distributes over concatenation. */
  lemma {:induction false} RawReviewsAppend(a: seq<Comment>, b: seq<Comment>)
    ensures RawReviews(a + b) == RawReviews(a) + RawReviews(b)
    decreases |a|
  {
    if |a| > 0 {
      assert (a + b)[1..] == a[1..] + b;
      RawReviewsAppend(a[1..], b);
    } else {
      assert a + b == b;
    }
  }

  /** One more comment contributes its author's login exactly when it is an lgtm comment. */
  lemma RawReviewsSnoc(cs: seq<Comment>, c: Comment)
    ensures RawReviews(cs + [c]) == RawReviews(cs) + (if IsLgtmComment(c) then [LoginOf(c.authorHref.value)] else [])
  {
    RawReviewsAppend(cs, [c]);
    assert [c][1..] == [];
  }

  // ------------------------------------------------------- getReviews

  /** `getReviews`: the widget pass, then the lgtm pass. */
  function GetReviews(items: seq<WidgetItem>, comments: seq<Comment>): (r: Meta)
    ensures r.rejections == |items| - Greens(items)
    ensures r.approvals == Greens(items) + (|r.reviewers| - |WidgetPass(Empty, items).reviewers|)
    ensures WidgetPass(Empty, items).reviewers <= r.reviewers
  {
    LgtmPass(WidgetPass(Empty, items), RawReviews(comments))
  }

  /** Whatever the page shows, the counters never undercount the ledger. */
  lemma GetReviewsSound(items: seq<WidgetItem>, comments: seq<Comment>)
    ensures Sound(GetReviews(items, comments))
  {
    WidgetPassSound(Empty, items);
    LgtmPassCounters(WidgetPass(Empty, items), RawReviews(comments));
  }

  /** With one widget entry per reviewer the counters are exact. */
  lemma GetReviewsExact(items: seq<WidgetItem>, comments: seq<Comment>)
    requires DistinctLogins(items)
    ensures Exact(GetReviews(items, comments))
  {
    WidgetPassExact(Empty, items);
    LgtmPassCounters(WidgetPass(Empty, items), RawReviews(comments));
  }

  /** With a repeated widget login the counters overcount: a reviewer shown
      first red then green leaves one rejection counted and none in the ledger. */
  lemma DuplicateWidgetOvercounts()
    ensures var m := WidgetPass(Empty, [WidgetItem("/alice", ["text-red"]), WidgetItem("/alice", [ApprovedIcon])]);
      m.rejections == 1 && m.reviewers == [("alice", Approved)] && Count(m.reviewers, Rejected) == 0
  {
    var a := WidgetItem("/alice", ["text-red"]);
    var b := WidgetItem("/alice", [ApprovedIcon]);
    assert WidgetLogin(a) == "alice" && WidgetLogin(b) == "alice";
    assert VerdictOf(a) == Rejected;
    var m1 := WidgetStep(Empty, a);
    assert m1.reviewers == [("alice", Rejected)];
    var m2 := WidgetStep(m1, b);
    assert m2.reviewers == [("alice", Approved)];
    assert [a, b][1..] == [b];
    assert WidgetPass(Empty, [a, b]) == WidgetPass(m1, [b]) == WidgetPass(m2, []);
  }

  /** Every ledger entry is either APPROVED or REJECTED. */
  lemma {:induction false} CountTotal(rs: seq<Entry>)
    ensures Count(rs, Approved) + Count(rs, Rejected) == |rs|
    decreases |rs|
  {
    if |rs| > 0 {
      CountTotal(rs[1..]);
    }
  }

  /** The ledger holds an entry for login k. */
  predicate Known(rs: seq<Entry>, k: string)
  {
    Lookup(rs, k).Some?
  }

  /** One widget step adds at most one ledger entry, and none for a known
      login; a known key stays known. */
  lemma WidgetStepSize(m: Meta, item: WidgetItem, k: string)
    ensures |WidgetStep(m, item).reviewers| <= |m.reviewers| + 1
    ensures Known(m.reviewers, WidgetLogin(item)) ==> |WidgetStep(m, item).reviewers| == |m.reviewers|
    ensures Known(m.reviewers, k) ==> Known(WidgetStep(m, item).reviewers, k)
  {
    SetShape(m.reviewers, WidgetLogin(item), VerdictOf(item));
    SetLookup(m.reviewers, WidgetLogin(item), VerdictOf(item), k);
    assert |Keys(WidgetStep(m, item).reviewers)| == |WidgetStep(m, item).reviewers|;
  }

  /** Each widget entry adds at most one ledger entry. */
  lemma {:induction false} WidgetPassGrowth(m: Meta, items: seq<WidgetItem>)
    ensures |WidgetPass(m, items).reviewers| <= |m.reviewers| + |items|
    decreases |items|
  {
    if |items| > 0 {
      var m' := WidgetStep(m, items[0]);
      assert WidgetPass(m, items) == WidgetPass(m', items[1..]);
      WidgetStepSize(m, items[0], "");
      WidgetPassGrowth(m', items[1..]);
    }
  }

  /** A login known before the first widget step is still known after it. */
  lemma WidgetStepKnown(m: Meta, items: seq<WidgetItem>, j: int)
    requires 0 < j < |items| && Known(m.reviewers, WidgetLogin(items[j]))
    ensures Known(WidgetStep(m, items[0]).reviewers, WidgetLogin(items[1..][j - 1]))
  {
    assert items[1..][j - 1] == items[j];
    WidgetStepSize(m, items[0], WidgetLogin(items[j]));
  }

  /** An entry for the first login adds no ledger entry when the ledger already holds it. */
  lemma WidgetPassKnownFirst(m: Meta, items: seq<WidgetItem>)
    requires 0 < |items| && Known(m.reviewers, WidgetLogin(items[0]))
    ensures |WidgetPass(m, items).reviewers| < |m.reviewers| + |items|
  {
    var m', rest := WidgetStep(m, items[0]), items[1..];
    assert |WidgetPass(m, items).reviewers| == |WidgetPass(m', rest).reviewers|;
    assert |m'.reviewers| == |m.reviewers| by {
      WidgetStepSize(m, items[0], "");
    }
    WidgetPassGrowth(m', rest);
  }

  /** An entry for a login the ledger already holds adds no ledger entry. */
  lemma {:induction false} WidgetPassKnownLogin(m: Meta, items: seq<WidgetItem>, j: int)
    requires 0 <= j < |items| && Known(m.reviewers, WidgetLogin(items[j]))
    ensures |WidgetPass(m, items).reviewers| < |m.reviewers| + |items|
    decreases |items|, 1
  {
    if j == 0 {
      WidgetPassKnownFirst(m, items);
    } else {
      WidgetPassKnownLater(m, items, j);
    }
  }

  /** A known login past the first entry stays known after the first step. */
  lemma {:induction false} WidgetPassKnownLater(m: Meta, items: seq<WidgetItem>, j: int)
    requires 0 < j < |items| && Known(m.reviewers, WidgetLogin(items[j]))
    ensures |WidgetPass(m, items).reviewers| < |m.reviewers| + |items|
    decreases |items|, 0
  {
    WidgetStepKnown(m, items, j);
    WidgetPassKnownLogin(WidgetStep(m, items[0]), items[1..], j - 1);
    WidgetPassShorterStep(m, items);
  }

  /** The first widget step makes its own login known for the rest of the loop. */
  lemma WidgetStepFirst(m: Meta, items: seq<WidgetItem>, j: int)
    requires 0 < j < |items| && WidgetLogin(items[0]) == WidgetLogin(items[j])
    ensures Known(WidgetStep(m, items[0]).reviewers, WidgetLogin(items[1..][j - 1]))
  {
    assert items[1..][j - 1] == items[j];
    SetLookup(m.reviewers, WidgetLogin(items[0]), VerdictOf(items[0]), WidgetLogin(items[0]));
  }

  /** A repeated pair of logins past the first entry is still repeated in the rest. */
  lemma RepeatedRest(items: seq<WidgetItem>, i: int, j: int)
    requires 0 < i < j < |items| && WidgetLogin(items[i]) == WidgetLogin(items[j])
    ensures WidgetLogin(items[1..][i - 1]) == WidgetLogin(items[1..][j - 1])
  {
    assert items[1..][i - 1] == items[i] && items[1..][j - 1] == items[j];
  }

  /** A login repeating the first one adds no ledger entry. */
  lemma WidgetPassRepeatedFirst(m: Meta, items: seq<WidgetItem>, j: int)
    requires 0 < j < |items| && WidgetLogin(items[0]) == WidgetLogin(items[j])
    ensures |WidgetPass(m, items).reviewers| < |m.reviewers| + |items|
  {
    var m', rest := WidgetStep(m, items[0]), items[1..];
    assert Known(m'.reviewers, WidgetLogin(rest[j - 1])) by {
      WidgetStepFirst(m, items, j);
    }
    WidgetPassKnownLogin(m', rest, j - 1);
  }

  /** The ledger-length bound carries back over the first widget step. */
  lemma WidgetPassShorterStep(m: Meta, items: seq<WidgetItem>)
    requires 0 < |items|
    requires |WidgetPass(WidgetStep(m, items[0]), items[1..]).reviewers| < |WidgetStep(m, items[0]).reviewers| + |items| - 1
    ensures |WidgetPass(m, items).reviewers| < |m.reviewers| + |items|
  {
    WidgetStepSize(m, items[0], "");
  }

  /** A repeated widget login leaves the ledger shorter than the entry count. */
  lemma {:induction false} WidgetPassRepeated(m: Meta, items: seq<WidgetItem>, i: int, j: int)
    requires 0 <= i < j < |items| && WidgetLogin(items[i]) == WidgetLogin(items[j])
    ensures |WidgetPass(m, items).reviewers| < |m.reviewers| + |items|
    decreases |items|, 1
  {
    if i == 0 {
      WidgetPassRepeatedFirst(m, items, j);
    } else {
      WidgetPassRepeatedLater(m, items, i, j);
    }
  }

  /** A repeat past the first entry: the first step adds at most one entry and
      the repeat remains in the rest. */
  lemma {:induction false} WidgetPassRepeatedLater(m: Meta, items: seq<WidgetItem>, i: int, j: int)
    requires 0 < i < j < |items| && WidgetLogin(items[i]) == WidgetLogin(items[j])
    ensures |WidgetPass(m, items).reviewers| < |m.reviewers| + |items|
    decreases |items|, 0
  {
    RepeatedRest(items, i, j);
    WidgetPassRepeated(WidgetStep(m, items[0]), items[1..], i - 1, j - 1);
    WidgetPassShorterStep(m, items);
  }

  /** Any repeated widget login makes the counters exceed what the ledger holds. */
  lemma WidgetPassOvercounts(items: seq<WidgetItem>)
    requires !DistinctLogins(items)
    ensures var m := WidgetPass(Empty, items);
      Count(m.reviewers, Approved) + Count(m.reviewers, Rejected) < m.approvals + m.rejections
  {
    var i, j :| 0 <= i < j < |items| && WidgetLogin(items[i]) == WidgetLogin(items[j]);
    WidgetPassRepeated(Empty, items, i, j);
    CountTotal(WidgetPass(Empty, items).reviewers);
    GreensBound(items);
  }

  /** The widget pass alone is exact precisely when no login repeats. */
  lemma WidgetPassExactIff(items: seq<WidgetItem>)
    ensures Exact(WidgetPass(Empty, items)) <==> DistinctLogins(items)
  {
    if DistinctLogins(items) {
      WidgetPassExact(Empty, items);
    } else {
      WidgetPassOvercounts(items);
    }
  }
}
