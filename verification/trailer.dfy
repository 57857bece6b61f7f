/**
 * `formatMeta`: the PR-URL line followed by one escaped `Reviewed-By` line
 * per ledger login that the collaborator directory knows.
 */
module Trailer {
  import opened Escape
  import opened Reviews
  import opened Collaborators

  /** `escapeHtml(`Reviewed-By: ${c.name} <${c.email}>`)`: the whole line is
      escaped, so the angle brackets around the e-mail become entities too. */
  function ReviewedByLine(c: Collaborator): (r: string)
    ensures r == "Reviewed-By: " + EscapeHtml(c.name) + " &lt;" + EscapeHtml(c.email) + "&gt;"
  {
    var line := "Reviewed-By: " + c.name + " <" + c.email + ">";
    ReviewedByShape(c.name, c.email);
    EscapeHtmlIsEscapeEach(line);
    EscapeHtmlIsEscapeEach(c.name);
    EscapeHtmlIsEscapeEach(c.email);
    EscapeHtml(line)
  }

  /** Escaping distributes over the pieces of the attribution line. */
  lemma ReviewedByShape(name: string, email: string)
    ensures EscapeEach("Reviewed-By: " + name + " <" + email + ">")
         == "Reviewed-By: " + EscapeEach(name) + " &lt;" + EscapeEach(email) + "&gt;"
  {
    var a := "Reviewed-By: ";
    EscapeEachAppend(a + name + " <" + email, ">");
    EscapeEachAppend(a + name + " <", email);
    EscapeEachAppend(a + name, " <");
    EscapeEachAppend(a, name);
    PrefixEscape();
    OpenEscape();
    CloseEscape();
  }

  /** The fixed parts of the attribution line under escaping. */
  lemma PrefixEscape()
    ensures EscapeEach("Reviewed-By: ") == "Reviewed-By: "
  {
    var a := "Reviewed-By: ";
    assert forall i :: 0 <= i < |a| ==> !Special(a[i]);
    EscapeEachIdentity(a);
  }

  lemma OpenEscape()
    ensures EscapeEach(" <") == " &lt;"
  {
    assert " <"[1..] == "<";
    assert "<"[1..] == [];
  }

  lemma CloseEscape()
    ensures EscapeEach(">") == "&gt;"
  {
    assert ">"[1..] == [];
  }

  /** The ledger logins that have a directory entry, in ledger order. */
  function Present(keys: seq<string>, dir: Directory): (r: seq<string>)
    ensures |r| <= |keys|
  {
    if |keys| == 0 then []
    else (if keys[0] in dir then [keys[0]] else []) + Present(keys[1..], dir)
  }

  /** Exactly the logins with a directory entry are kept, and when every login
      has one, nothing is skipped. */
  lemma {:induction false} PresentMembers(keys: seq<string>, dir: Directory)
    ensures forall x :: x in Present(keys, dir) <==> x in keys && x in dir
    ensures (forall x :: x in keys ==> x in dir) ==> Present(keys, dir) == keys
    decreases |keys|
  {
    if |keys| > 0 {
      PresentMembers(keys[1..], dir);
      assert forall x :: x in keys <==> x == keys[0] || x in keys[1..];
      assert keys == [keys[0]] + keys[1..];
    }
  }

  /** Filtering keeps ledger order: it distributes over concatenation. */
  lemma {:induction false} PresentAppend(a: seq<string>, b: seq<string>, dir: Directory)
    ensures Present(a + b, dir) == Present(a, dir) + Present(b, dir)
    decreases |a|
  {
    if |a| > 0 {
      assert (a + b)[1..] == a[1..] + b;
      PresentAppend(a[1..], b, dir);
    } else {
      assert a + b == b;
    }
  }

  /** The `revs` loop: directory misses are skipped, the rest rendered. */
  function ReviewedBy(keys: seq<string>, dir: Directory): (r: seq<string>)
    ensures |r| == |Present(keys, dir)|
  {
    if |keys| == 0 then []
    else (if keys[0] in dir then [ReviewedByLine(dir[keys[0]])] else []) + ReviewedBy(keys[1..], dir)
  }

  /** Rendering keeps ledger order: it distributes over concatenation. */
  lemma {:induction false} ReviewedByAppend(a: seq<string>, b: seq<string>, dir: Directory)
    ensures ReviewedBy(a + b, dir) == ReviewedBy(a, dir) + ReviewedBy(b, dir)
    decreases |a|
  {
    if |a| > 0 {
      var h := if a[0] in dir then [ReviewedByLine(dir[a[0]])] else [];
      assert (a + b)[0] == a[0] && (a + b)[1..] == a[1..] + b;
      assert ReviewedBy(a + b, dir) == h + ReviewedBy(a[1..] + b, dir);
      assert ReviewedBy(a, dir) == h + ReviewedBy(a[1..], dir);
      ReviewedByAppend(a[1..], b, dir);
    } else {
      assert a + b == b;
    }
  }

  /** The i-th rendered line belongs to the i-th ledger login found in the directory. */
  lemma {:induction false} ReviewedByLines(keys: seq<string>, dir: Directory, i: int)
    requires 0 <= i < |Present(keys, dir)|
    ensures Present(keys, dir)[i] in dir
    ensures ReviewedBy(keys, dir)[i] == ReviewedByLine(dir[Present(keys, dir)[i]])
    decreases |keys|
  {
    var p, r := Present(keys, dir), ReviewedBy(keys, dir);
    if keys[0] in dir {
      assert p == [keys[0]] + Present(keys[1..], dir);
      assert r == [ReviewedByLine(dir[keys[0]])] + ReviewedBy(keys[1..], dir);
      if i > 0 {
        ReviewedByLines(keys[1..], dir, i - 1);
      }
    } else {
      assert p == Present(keys[1..], dir);
      assert r == ReviewedBy(keys[1..], dir);
      ReviewedByLines(keys[1..], dir, i);
    }
  }

  /** The metadata lines: `PR-URL: <url>`, then the Reviewed-By lines. */
  function FormatMeta(prUrl: string, m: Meta, dir: Directory): (r: seq<string>)
    ensures |r| == 1 + |Present(Keys(m.reviewers), dir)| && r[0] == "PR-URL: " + prUrl
    ensures (forall k :: k in Keys(m.reviewers) ==> k in dir) ==> |r| == 1 + |m.reviewers|
  {
    PresentMembers(Keys(m.reviewers), dir);
    ["PR-URL: " + prUrl] + ReviewedBy(Keys(m.reviewers), dir)
  }

  /** Line i + 1 of the metadata is the escaped attribution of the i-th ledger
      login present in the directory; it carries no raw markup character. */
  lemma FormatMetaLine(prUrl: string, m: Meta, dir: Directory, i: int)
    requires 0 <= i < |Present(Keys(m.reviewers), dir)|
    ensures var key := Present(Keys(m.reviewers), dir)[i];
      key in dir && key in Keys(m.reviewers)
      && FormatMeta(prUrl, m, dir)[i + 1] == ReviewedByLine(dir[key])
    ensures var line := FormatMeta(prUrl, m, dir)[i + 1];
      forall j :: 0 <= j < |line| ==> line[j] !in "<>\"'"
  {
    var keys := Keys(m.reviewers);
    ReviewedByLines(keys, dir, i);
    var key := Present(keys, dir)[i];
    PresentMembers(keys, dir);
    assert key in Present(keys, dir);
    ReviewedByLineSafe(dir[key]);
  }

  /** An attribution line holds no raw markup character, whatever the name and e-mail. */
  lemma ReviewedByLineSafe(c: Collaborator)
    ensures forall j :: 0 <= j < |ReviewedByLine(c)| ==> ReviewedByLine(c)[j] !in "<>\"'"
  {
    var line := "Reviewed-By: " + c.name + " <" + c.email + ">";
    assert ReviewedByLine(c) == EscapeHtml(line);
    EscapeHtmlSafe(line);
  }
}
