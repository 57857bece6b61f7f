/**
 * The collaborator directory: the record grammar of the project README and
 * the fold of its matches into a map keyed by lower-cased login. The record
 * pattern is
 *   \* \[([^\]]+)\]\([^\)]+\) -\s\*\*([^\*]+)\*\* &lt;([^&]+)&gt;
 * matched globally over the whole document.
 */
module Collaborators {
  import opened Wrappers
  import opened Text

  /** One directory entry: the login as written, the display name and the e-mail. */
  datatype Collaborator = Collaborator(login: string, name: string, email: string)

  /** Lower-cased login to collaborator. */
  type Directory = map<string, Collaborator>

  /** One match of the record pattern: its three captured groups plus the
      uncaptured link target and separator character. */
  datatype Record = Record(login: string, url: string, space: char, name: string, email: string)

  datatype DirectoryError = CouldNotParse

  /** Field constraints of the pattern: each group is non-empty and free of
      the character that ends it. */
  predicate ValidRecord(r: Record)
  {
    && |r.login| > 0 && ']' !in r.login
    && |r.url| > 0 && ')' !in r.url
    && IsSpace(r.space)
    && |r.name| > 0 && '*' !in r.name
    && |r.email| > 0 && '&' !in r.email
  }

  /** The text a record occupies in the document. */
  function RecordText(r: Record): string
  {
    "* [" + (r.login + "](") + (r.url + ") -") + [r.space] + "**" + (r.name + "** &lt;") + (r.email + "&gt;")
  }

  /** Index of the first c in s at or after i, or |s|: how far a greedy `[^c]+` runs. */
  function Until(s: string, i: nat, c: char): (j: nat)
    requires i <= |s|
    ensures i <= j <= |s|
    ensures forall k :: i <= k < j ==> s[k] != c
    ensures j < |s| ==> s[j] == c
    decreases |s| - i
  {
    if i == |s| || s[i] == c then i else Until(s, i + 1, c)
  }

  lemma {:induction false} UntilAt(s: string, i: nat, c: char, j: nat)
    requires i <= j < |s| && s[j] == c
    requires forall k :: i <= k < j ==> s[k] != c
    ensures Until(s, i, c) == j
    decreases j - i
  {
    if i < j {
      UntilAt(s, i + 1, c, j);
    }
  }

  /** A group `([^c]+)` followed by the literal `lit`, which starts with c:
      the group's text and the index just past `lit`. */
  function Group(s: string, i: nat, c: char, lit: string): (r: Option<(string, nat)>)
    requires i <= |s|
    ensures r.Some? ==> |r.value.0| > 0 && c !in r.value.0
    ensures r.Some? ==> r.value.1 == i + |r.value.0| + |lit| <= |s|
    ensures r.Some? ==> s[i..r.value.1] == r.value.0 + lit
  {
    var j := Until(s, i, c);
    if j == i || !HasAt(s, j, lit) then None
    else
      assert forall x :: x in s[i..j] ==> x != c;
      assert s[i..j + |lit|] == s[i..j] + s[j..j + |lit|];
      Some((s[i..j], j + |lit|))
  }

  /** A non-empty c-free group followed by `lit` is found in full. */
  lemma GroupAt(s: string, i: nat, c: char, lit: string, x: string)
    requires |x| > 0 && c !in x && |lit| > 0 && lit[0] == c
    requires i + |x| + |lit| <= |s| && s[i..i + |x| + |lit|] == x + lit
    ensures Group(s, i, c, lit) == Some((x, i + |x| + |lit|))
  {
    var j := i + |x|;
    assert forall k :: i <= k < j ==> s[k] == x[k - i];
    assert s[j] == lit[0];
    UntilAt(s, i, c, j);
    assert s[i..j] == x;
    assert s[j..j + |lit|] == lit;
  }

  /** The pattern anchored at position p: the record and the index just past it. */
  function MatchAt(s: string, p: nat): (r: Option<(Record, nat)>)
    requires p <= |s|
    ensures r.Some? ==> ValidRecord(r.value.0)
    ensures r.Some? ==> r.value.1 == p + |RecordText(r.value.0)| <= |s|
    ensures r.Some? ==> s[p..r.value.1] == RecordText(r.value.0)
  {
    MatchStepsSound(s, p);
    MatchSteps(s, p)
  }

  /** The steps of the record pattern, left to right. */
  function MatchSteps(s: string, p: nat): Option<(Record, nat)>
    requires p <= |s|
  {
    var h := MatchHead(s, p);
    if h.None? then None else
    var t := MatchTail(s, h.value.2);
    if t.None? then None else
    Some((Record(h.value.0, h.value.1, t.value.0, t.value.1, t.value.2), t.value.3))
  }

  /** `\* \[([^\]]+)\]\([^\)]+\) -`: the login, the link target and the index after them. */
  function MatchHead(s: string, p: nat): (r: Option<(string, string, nat)>)
    requires p <= |s|
    ensures r.Some? ==> r.value.2 <= |s|
  {
    if !HasAt(s, p, "* [") then None else
    var g1 := Group(s, p + 3, ']', "](");
    if g1.None? then None else
    var g2 := Group(s, g1.value.1, ')', ") -");
    if g2.None? then None else
    Some((g1.value.0, g2.value.0, g2.value.1))
  }

  /** `\s\*\*([^\*]+)\*\* &lt;([^&]+)&gt;`: the separator, name, e-mail and the index after them. */
  function MatchTail(s: string, e: nat): (r: Option<(char, string, string, nat)>)
    requires e <= |s|
    ensures r.Some? ==> IsSpace(r.value.0) && |r.value.1| > 0 && |r.value.2| > 0 && e < r.value.3 <= |s|
  {
    if e >= |s| || !IsSpace(s[e]) || !HasAt(s, e + 1, "**") then None else
    var g3 := Group(s, e + 3, '*', "** &lt;");
    if g3.None? then None else
    var g4 := Group(s, g3.value.1, '&', "&gt;");
    if g4.None? then None else
    Some((s[e], g3.value.0, g4.value.0, g4.value.1))
  }

  lemma MatchStepsSound(s: string, p: nat)
    requires p <= |s|
    ensures MatchSteps(s, p).Some? ==> ValidRecord(MatchSteps(s, p).value.0)
    ensures MatchSteps(s, p).Some? ==> MatchSteps(s, p).value.1 == p + |RecordText(MatchSteps(s, p).value.0)| <= |s|
    ensures MatchSteps(s, p).Some? ==> s[p..MatchSteps(s, p).value.1] == RecordText(MatchSteps(s, p).value.0)
  {
    if MatchSteps(s, p).Some? {
      var h := MatchHead(s, p).value;
      var t := MatchTail(s, h.2).value;
      var g1 := Group(s, p + 3, ']', "](").value;
      var g3 := Group(s, h.2 + 3, '*', "** &lt;").value;
      var rec := Record(h.0, h.1, t.0, t.1, t.2);
      MatchAtText(s, p, rec, g1.1, h.2, g3.1, t.3);
    }
  }

  /** Two adjacent slices of s join into one. */
  lemma Join(s: string, i: nat, j: nat, k: nat)
    requires i <= j <= k <= |s|
    ensures s[i..k] == s[i..j] + s[j..k]
  {
  }

  /** The stages MatchAt passes through reassemble into the record's text. */
  lemma MatchAtText(s: string, p: nat, rec: Record, q1: nat, e: nat, q3: nat, q4: nat)
    requires p + 3 <= q1 <= e && e + 3 <= q3 <= q4 <= |s|
    requires s[p..p + 3] == "* [" && s[p + 3..q1] == rec.login + "](" && s[q1..e] == rec.url + ") -"
    requires s[e] == rec.space && s[e + 1..e + 3] == "**"
    requires s[e + 3..q3] == rec.name + "** &lt;" && s[q3..q4] == rec.email + "&gt;"
    requires |rec.login| > 0 && ']' !in rec.login && |rec.url| > 0 && ')' !in rec.url && IsSpace(rec.space)
    requires |rec.name| > 0 && '*' !in rec.name && |rec.email| > 0 && '&' !in rec.email
    ensures ValidRecord(rec)
    ensures q4 == p + |RecordText(rec)|
    ensures s[p..q4] == RecordText(rec)
  {
    var t1 := "* [" + (rec.login + "](");
    var t2 := t1 + (rec.url + ") -");
    var t3 := t2 + [rec.space];
    var t4 := t3 + "**";
    var t5 := t4 + (rec.name + "** &lt;");
    Join(s, p, p + 3, q1);
    assert s[p..q1] == t1;
    Join(s, p, q1, e);
    assert s[p..e] == t2;
    assert s[e..e + 1] == [rec.space];
    Join(s, p, e, e + 1);
    assert s[p..e + 1] == t3;
    Join(s, p, e + 1, e + 3);
    assert s[p..e + 3] == t4;
    Join(s, p, e + 3, q3);
    assert s[p..q3] == t5;
    Join(s, p, q3, q4);
    assert s[p..q4] == t5 + (rec.email + "&gt;");
  }

  /** A slice holding x + y splits into a slice holding x and one holding y. */
  lemma Split(s: string, p: nat, x: string, y: string)
    requires p + |x| + |y| <= |s| && s[p..p + |x| + |y|] == x + y
    ensures s[p..p + |x|] == x && s[p + |x|..p + |x| + |y|] == y
  {
    assert s[p..p + |x|] == s[p..p + |x| + |y|][..|x|];
    assert s[p + |x|..p + |x| + |y|] == s[p..p + |x| + |y|][|x|..];
    assert (x + y)[..|x|] == x && (x + y)[|x|..] == y;
  }

  /** Where the record's text stands, MatchAt finds exactly that record. */
  lemma MatchAtComplete(s: string, p: nat, rec: Record)
    requires ValidRecord(rec)
    requires p + |RecordText(rec)| <= |s| && s[p..p + |RecordText(rec)|] == RecordText(rec)
    ensures MatchAt(s, p) == Some((rec, p + |RecordText(rec)|))
  {
    var a, b, c := "* [", rec.login + "](", rec.url + ") -";
    var d, e, f, g := [rec.space], "**", rec.name + "** &lt;", rec.email + "&gt;";
    assert RecordText(rec) == a + b + c + d + e + f + g;
    Split(s, p, a + b + c + d + e + f, g);
    Split(s, p, a + b + c + d + e, f);
    Split(s, p, a + b + c + d, e);
    Split(s, p, a + b + c, d);
    Split(s, p, a + b, c);
    Split(s, p, a, b);
    MatchAtFromPieces(s, p, rec, p + |a + b|, p + |a + b + c|, p + |a + b + c + d + e + f|, p + |RecordText(rec)|);
  }

  /** The stages of MatchAt each succeed on the pieces of a record's text. */
  lemma MatchAtFromPieces(s: string, p: nat, rec: Record, q1: nat, e: nat, q3: nat, q4: nat)
    requires ValidRecord(rec)
    requires q1 == p + 3 + |rec.login| + 2 && e == q1 + |rec.url| + 3
    requires q3 == e + 3 + |rec.name| + 7 && q4 == q3 + |rec.email| + 4 && q4 <= |s|
    requires s[p..p + 3] == "* [" && s[p + 3..q1] == rec.login + "](" && s[q1..e] == rec.url + ") -"
    requires s[e..e + 1] == [rec.space] && s[e + 1..e + 3] == "**"
    requires s[e + 3..q3] == rec.name + "** &lt;" && s[q3..q4] == rec.email + "&gt;"
    ensures q4 == p + |RecordText(rec)|
    ensures MatchSteps(s, p) == Some((rec, q4))
  {
    assert |RecordText(rec)| == 3 + |rec.login| + 2 + |rec.url| + 3 + 1 + 2 + |rec.name| + 7 + |rec.email| + 4;
    HeadFromPieces(s, p, rec.login, q1, rec.url, e);
    TailFromPieces(s, e, rec.space, rec.name, q3, rec.email, q4);
  }

  /** The first stage succeeds on a login and link laid out in place. */
  lemma HeadFromPieces(s: string, p: nat, login: string, q1: nat, url: string, e: nat)
    requires |login| > 0 && ']' !in login && |url| > 0 && ')' !in url
    requires q1 == p + 3 + |login| + 2 && e == q1 + |url| + 3 && e <= |s|
    requires s[p..p + 3] == "* [" && s[p + 3..q1] == login + "](" && s[q1..e] == url + ") -"
    ensures MatchHead(s, p) == Some((login, url, e))
  {
    assert HasAt(s, p, "* [");
    GroupAt(s, p + 3, ']', "](", login);
    GroupAt(s, q1, ')', ") -", url);
    MatchHeadOf(s, p, login, q1, url, e);
  }

  /** The second stage succeeds on a separator, name and e-mail laid out in place. */
  lemma TailFromPieces(s: string, e: nat, space: char, name: string, q3: nat, email: string, q4: nat)
    requires IsSpace(space) && |name| > 0 && '*' !in name && |email| > 0 && '&' !in email
    requires q3 == e + 3 + |name| + 7 && q4 == q3 + |email| + 4 && q4 <= |s|
    requires s[e..e + 1] == [space] && s[e + 1..e + 3] == "**"
    requires s[e + 3..q3] == name + "** &lt;" && s[q3..q4] == email + "&gt;"
    ensures MatchTail(s, e) == Some((space, name, email, q4))
  {
    assert s[e] == space;
    assert HasAt(s, e + 1, "**");
    GroupAt(s, e + 3, '*', "** &lt;", name);
    GroupAt(s, q3, '&', "&gt;", email);
    MatchTailOf(s, e, space, name, q3, email, q4);
  }

  lemma MatchHeadOf(s: string, p: nat, login: string, q1: nat, url: string, e: nat)
    requires p <= |s| && HasAt(s, p, "* [")
    requires Group(s, p + 3, ']', "](") == Some((login, q1))
    requires Group(s, q1, ')', ") -") == Some((url, e))
    ensures MatchHead(s, p) == Some((login, url, e))
  {
  }

  lemma MatchTailOf(s: string, e: nat, space: char, name: string, q3: nat, email: string, q4: nat)
    requires e < |s| && s[e] == space && IsSpace(space) && HasAt(s, e + 1, "**")
    requires Group(s, e + 3, '*', "** &lt;") == Some((name, q3))
    requires Group(s, q3, '&', "&gt;") == Some((email, q4))
    ensures MatchTail(s, e) == Some((space, name, email, q4))
  {
  }

  /** `body.match(new RegExp(RE, 'mg'))`: try each start position left to
      right; after a match, continue just past it. */
  function Scan(s: string, p: nat): (r: seq<Record>)
    requires p <= |s|
    ensures forall x :: x in r ==> ValidRecord(x)
    decreases |s| - p
  {
    if p == |s| then []
    else match MatchAt(s, p)
      case Some((rec, end)) => [rec] + Scan(s, end)
      case None => Scan(s, p + 1)
  }

  /** The record pattern matches somewhere in s at or after p. */
  predicate MatchesFrom(s: string, p: nat)
  {
    exists q :: p <= q <= |s| && MatchAt(s, q).Some?
  }

  /** No record fits in the empty remainder at the end of the document. */
  lemma NoMatchAtEnd(s: string)
    ensures MatchAt(s, |s|).None?
  {
  }

  /** A position where the pattern fails does not affect whether it matches later. */
  lemma MatchesFromStep(s: string, p: nat)
    requires p < |s| && MatchAt(s, p).None?
    ensures MatchesFrom(s, p) <==> MatchesFrom(s, p + 1)
  {
    if MatchesFrom(s, p) {
      var q :| p <= q <= |s| && MatchAt(s, q).Some?;
      assert q != p;
      assert p + 1 <= q;
    }
  }

  /** Every record the global match returns is the match at some position,
      so its text stands in the document there. */
  lemma {:induction false} ScanMatches(s: string, p: nat, x: Record)
    requires p <= |s|
    ensures x in Scan(s, p) ==> exists q :: p <= q <= |s| && MatchAt(s, q).Some? && MatchAt(s, q).value.0 == x
    decreases |s| - p
  {
    if p < |s| && x in Scan(s, p) {
      match MatchAt(s, p)
      case Some((rec, end)) =>
        if x != rec {
          ScanMatches(s, end, x);
        }
      case None =>
        ScanMatches(s, p + 1, x);
    }
  }

  /** The global match finds nothing exactly when no position holds a record. */
  lemma {:induction false} ScanEmpty(s: string, p: nat)
    requires p <= |s|
    ensures Scan(s, p) == [] <==> !MatchesFrom(s, p)
    decreases |s| - p
  {
    if p == |s| {
      NoMatchAtEnd(s);
    } else if MatchAt(s, p).None? {
      MatchesFromStep(s, p);
      ScanEmpty(s, p + 1);
    } else {
      assert MatchesFrom(s, p);
    }
  }

  /** The directory key of a record. */
  function DirectoryKey(r: Record): (k: string)
    ensures IsLower(k) && |k| == |r.login|
  {
    ToLower(r.login)
  }

  /** The directory value of a record. */
  function DirectoryEntry(r: Record): Collaborator
  {
    Collaborator(r.login, r.name, r.email)
  }

  /** The `reduce` over all matches: each record sets its key, so later
      records overwrite earlier ones with the same key. */
  function Members(recs: seq<Record>): (d: Directory)
    ensures |recs| > 0 ==> DirectoryKey(recs[|recs| - 1]) in d
    decreases |recs|
  {
    if |recs| == 0 then map[]
    else Members(recs[..|recs| - 1])[DirectoryKey(recs[|recs| - 1]) := DirectoryEntry(recs[|recs| - 1])]
  }

  /** The directory's keys are exactly the lower-cased logins of the records. */
  lemma {:induction false} MembersKeys(recs: seq<Record>, k: string)
    ensures k in Members(recs) <==> exists i :: 0 <= i < |recs| && DirectoryKey(recs[i]) == k
    decreases |recs|
  {
    if |recs| > 0 {
      var n := |recs| - 1;
      MembersKeys(recs[..n], k);
      assert forall i :: 0 <= i < n ==> recs[..n][i] == recs[i];
    }
  }

  /** The entry stored under a key comes from the last record with that key. */
  lemma {:induction false} MembersLastWins(recs: seq<Record>, i: int)
    requires 0 <= i < |recs|
    requires forall j :: i < j < |recs| ==> DirectoryKey(recs[j]) != DirectoryKey(recs[i])
    ensures DirectoryKey(recs[i]) in Members(recs) && Members(recs)[DirectoryKey(recs[i])] == DirectoryEntry(recs[i])
    decreases |recs|
  {
    var n := |recs| - 1;
    if i < n {
      assert recs[..n][i] == recs[i];
      MembersLastWins(recs[..n], i);
    }
  }

  /** Zero matches is an error; otherwise the folded map, which then has at least one entry. */
  function ParseDirectory(doc: string): (r: Result<Directory, DirectoryError>)
    ensures r.Failure? <==> !MatchesFrom(doc, 0)
    ensures r.Success? ==> |r.value| > 0 && r.value == Members(Scan(doc, 0))
  {
    var recs := Scan(doc, 0);
    ScanEmpty(doc, 0);
    if |recs| == 0 then Failure(CouldNotParse)
    else
      var d := Members(recs);
      assert |d| > 0 by {
        assert DirectoryKey(recs[|recs| - 1]) in d.Keys;
      }
      Success(d)
  }

  /** Every directory entry is the entry of some record with that key. */
  lemma {:induction false} MembersLast(recs: seq<Record>)
    ensures forall k :: k in Members(recs) ==> exists x :: x in recs && DirectoryKey(x) == k && Members(recs)[k] == DirectoryEntry(x)
    decreases |recs|
  {
    if |recs| > 0 {
      var n := |recs| - 1;
      MembersLast(recs[..n]);
      assert forall x :: x in recs[..n] ==> x in recs;
      assert recs[n] in recs;
    }
  }

  /** A document holding exactly one record line yields a one-entry directory
      keyed by the lower-cased login. */
  lemma SingleRecord(rec: Record)
    requires ValidRecord(rec)
    ensures ParseDirectory(RecordText(rec)) == Success(map[DirectoryKey(rec) := DirectoryEntry(rec)])
  {
    ScanSingle(rec);
    OneMatch(RecordText(rec), rec);
  }

  /** A document whose global match yields one record folds to that record's entry. */
  lemma OneMatch(doc: string, rec: Record)
    ensures Scan(doc, 0) == [rec] ==> ParseDirectory(doc) == Success(map[DirectoryKey(rec) := DirectoryEntry(rec)])
  {
    if Scan(doc, 0) == [rec] {
      ScanEmpty(doc, 0);
      var r := ParseDirectory(doc);
      assert r.value == Members([rec]);
      assert [rec][..0] == [];
      assert Members([rec]) == Members([])[DirectoryKey(rec) := DirectoryEntry(rec)];
    }
  }

  /** The global match over one record line finds just that record. */
  lemma ScanSingle(rec: Record)
    requires ValidRecord(rec)
    ensures MatchAt(RecordText(rec), 0).Some?
    ensures Scan(RecordText(rec), 0) == [rec]
  {
    var doc := RecordText(rec);
    MatchAtComplete(doc, 0, rec);
    assert doc[0..|doc|] == doc;
  }

  /** A directory listing: each record's text followed by a line break. */
  function Lines(recs: seq<Record>): string
  {
    if |recs| == 0 then [] else RecordText(recs[0]) + "\n" + Lines(recs[1..])
  }

  /** No record starts at a line break, since the pattern opens with `*`. */
  lemma NoMatchAtNewline(s: string, e: nat)
    requires e < |s| && s[e] == '\n'
    ensures MatchAt(s, e).None?
  {
    if e + 3 <= |s| {
      assert s[e..e + 3][0] == s[e];
    }
  }

  /** Where the pattern matches, the global match takes the record and resumes after it. */
  lemma ScanStepMatch(s: string, p: nat)
    requires p < |s| && MatchAt(s, p).Some?
    ensures Scan(s, p) == [MatchAt(s, p).value.0] + Scan(s, MatchAt(s, p).value.1)
  {
  }

  /** Where the pattern fails, the global match moves on by one position. */
  lemma ScanStepSkip(s: string, p: nat)
    requires p < |s| && MatchAt(s, p).None?
    ensures Scan(s, p) == Scan(s, p + 1)
  {
  }

  /** A record matched at p and followed by a line break: the global match
      takes the record and resumes after the break. */
  lemma {:induction false} ScanRecordLine(s: string, p: nat, r: Record, e: nat, rest: seq<Record>)
    requires p < e < |s| && MatchAt(s, p) == Some((r, e)) && s[e] == '\n'
    requires Scan(s, e + 1) == rest
    ensures Scan(s, p) == [r] + rest
  {
    ScanStepMatch(s, p);
    NoMatchAtNewline(s, e);
    ScanStepSkip(s, e);
  }

  /** A listing that fills s from p starts with its first record line, and the
      rest of the listing fills s after the line break. */
  lemma ListingHead(s: string, p: nat, recs: seq<Record>)
    requires p <= |s| && s[p..] == Lines(recs) && |recs| > 0
    ensures var e := p + |RecordText(recs[0])|;
      && e < |s| && s[p..e] == RecordText(recs[0]) && s[e] == '\n'
      && s[e + 1..] == Lines(recs[1..])
  {
    var t := RecordText(recs[0]);
    var e := p + |t|;
    assert s[p..] == t + "\n" + Lines(recs[1..]);
    assert s[p..e] == s[p..][..|t|];
    assert s[e] == s[p..][|t|];
    assert s[e + 1..] == s[p..][|t| + 1..];
  }

  /** From p on, s holds the records' lines one after another: each record is
      matched where its line starts and is followed by a line break. */
  predicate Listed(s: string, p: nat, recs: seq<Record>)
    decreases |recs|
  {
    && p <= |s|
    && if |recs| == 0 then p == |s|
       else
         var e := p + |RecordText(recs[0])|;
         e < |s| && MatchAt(s, p) == Some((recs[0], e)) && s[e] == '\n' && Listed(s, e + 1, recs[1..])
  }

  /** A listing that fills s from p is laid out line by line. */
  lemma {:induction false} ListingListed(s: string, p: nat, recs: seq<Record>)
    requires p <= |s| && s[p..] == Lines(recs)
    requires forall x :: x in recs ==> ValidRecord(x)
    ensures Listed(s, p, recs)
    decreases |recs|
  {
    if |recs| == 0 {
      assert |s[p..]| == 0;
    } else {
      var e := p + |RecordText(recs[0])|;
      ListingHead(s, p, recs);
      MatchAtComplete(s, p, recs[0]);
      assert forall x :: x in recs[1..] ==> x in recs;
      ListingListed(s, e + 1, recs[1..]);
    }
  }

  /** The first line of a layout, and the layout of the rest. */
  lemma ListedHead(s: string, p: nat, recs: seq<Record>)
    requires Listed(s, p, recs) && |recs| > 0
    ensures var e := p + |RecordText(recs[0])|;
      && p < e < |s| && MatchAt(s, p) == Some((recs[0], e)) && s[e] == '\n'
      && Listed(s, e + 1, recs[1..])
  {
  }

  /** One step of `ScanListed`: the scan from a listed record is that record
      followed by the scan after its line. */
  lemma ScanListedStep(s: string, p: nat, recs: seq<Record>, e: nat)
    requires |recs| > 0 && p < e < |s| && MatchAt(s, p) == Some((recs[0], e)) && s[e] == '\n'
    requires Scan(s, e + 1) == recs[1..]
    ensures Scan(s, p) == recs
  {
    ScanRecordLine(s, p, recs[0], e, recs[1..]);
    assert recs == [recs[0]] + recs[1..];
  }

  /** The global match over records laid out line by line returns them, in order. */
  lemma {:induction false} ScanListed(s: string, p: nat, recs: seq<Record>)
    requires Listed(s, p, recs)
    ensures Scan(s, p) == recs
    decreases |recs|
  {
    if |recs| > 0 {
      var e := p + |RecordText(recs[0])|;
      ListedHead(s, p, recs);
      ScanListed(s, e + 1, recs[1..]);
      ScanListedStep(s, p, recs, e);
    }
  }

  /** The global match over a listing returns every record, in order. */
  lemma ScanLines(recs: seq<Record>)
    requires forall x :: x in recs ==> ValidRecord(x)
    ensures Scan(Lines(recs), 0) == recs
  {
    var s := Lines(recs);
    assert s[0..] == s;
    ListingListed(s, 0, recs);
    ScanListed(s, 0, recs);
  }

  /** Every collaborator listed in a non-empty listing is in the parsed directory,
      under its lower-cased login, with the entry of its last line. */
  lemma ParseLines(recs: seq<Record>)
    requires |recs| > 0 && forall x :: x in recs ==> ValidRecord(x)
    ensures ParseDirectory(Lines(recs)) == Success(Members(recs))
  {
    ScanLines(recs);
    ScanEmpty(Lines(recs), 0);
  }
}
