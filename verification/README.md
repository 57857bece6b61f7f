# node-review in Dafny

A model of `review.js`, the content script of node-review. It runs on a GitHub
pull-request page of the `nodejs` organisation and decides whether the pull
request is ready to land. It does this in five steps:

- It recognises the page from its path (`getPR`).
- It builds a reviewer ledger (`getReviews`) from two sources:
  - the merge-status review widget, where a green icon means approved and anything else means changes requested;
  - top-level comments whose body says `lgtm` (`getRawReviews`).
- It refuses the pull request when some reviewer requested changes, or when nobody approved.
- Otherwise it parses the collaborator list out of the project README (`getCollaborators`).
- It prints the landing metadata (`formatMeta`): a `PR-URL:` line, then one HTML-escaped `Reviewed-By: name <email>` line per ledger login found in the directory.

The page, the comments and the fetched README are inputs to the model. The
script reads them from the DOM and the network; the model takes them as values.

Modules, one file each:

| module | file | models |
|---|---|---|
| `Wrappers` | wrappers.dfy | `Option` and `Result` |
| `Text` | text.dfy | `toLowerCase` (ASCII), `slice(1)`, the `\w` and `\s` character classes |
| `Patterns` | patterns.dfy | `LGTM_RE`, `PR_RE` and `getPR`, as deterministic parsers |
| `Escape` | escape.dfy | `escapeHtml`, its single-pass equivalent and its inverse |
| `Reviews` | reviews.dfy | the ledger as an insertion-ordered `Map`, the widget pass, `getRawReviews`, the lgtm pass, `getReviews` |
| `Gate` | gate.dfy | the two refusals at the top of the script |
| `Collaborators` | collaborators.dfy | the README record pattern, its global match, and the `reduce` into a directory |
| `Trailer` | trailer.dfy | `formatMeta` as a list of lines |
| `Review` | review.dfy | the whole script as one function from inputs to outcome |

The ledger is a sequence of `(login, status)` pairs. `Map.set` becomes
`Reviews.Set`: an existing key keeps its position and takes the new status,
and a new key is appended.

Counting ledger entries by status gives two invariants:

- `Sound`: each status count is at most its counter. This holds for every page.
- `Exact`: each status count equals its counter. This holds when the widget lists each login once.

Two facts about the script shape the model:

- An lgtm comment only adds a login that is absent from the ledger (review.js:171). It never overrides a widget entry.
- `formatMeta` renders every ledger key (review.js:87), not only the approved ones. `Gate.Check` shows that every entry is approved once the gate passes.

## Model

| member | source | states |
|---|---|---|
| Text.LowerChar | review.js:165 | the result is never an upper-case ASCII letter; an upper-case letter becomes the lower-case letter at the same alphabet position; every other character is unchanged |
| Text.ToLower | review.js:165 | `toLowerCase` keeps the length and lowers each character independently |
| Text.ToLowerIdempotent | review.js:196 | a lowered login is lower-case, and lowering it again changes nothing |
| Text.SliceFromOne | review.js:158 | `slice(1)` drops the first character; on the empty string it gives the empty string |
| Text.LoginOf | review.js:157-158 | the ledger key is the href without its leading `/`, lowered character by character, and is lower-case; an empty href gives the empty login |
| Patterns.LgtmTokenAt | review.js:17 | the case-insensitive `lgtm` with a non-word character or a string edge on each side, at one position |
| Patterns.FirstLgtm | review.js:17 | the scan returns the first position where an lgtm token starts, or reports that none does |
| Patterns.HasLgtm | review.js:17 | `LGTM_RE.test` holds iff some position has `lgtm` in any case, with a non-word character or the string edge on each side |
| Patterns.NextSlash | review.js:9 | the first `/` at or after a position, or the end of the string |
| Patterns.NextSlashAt | review.js:9 | the slash scan stops exactly at the first slash |
| Patterns.ParseId | review.js:9 | an accepted id is a non-empty slash-free segment, optionally followed by one slash |
| Patterns.ParseIdComplete | review.js:9 | every segment, with or without a trailing slash, is accepted as that id |
| Patterns.ParsePrPath | review.js:9 | an accepted suffix is `/nodejs/<repo>/pull/<id>` with an optional trailing slash, both segments non-empty and slash-free |
| Patterns.PrPathSplit | review.js:9 | cutting at the first slash after `/nodejs/` gives the repo segment and the rest of the path |
| Patterns.ParsePrPathComplete | review.js:9 | every well-formed `/nodejs/<repo>/pull/<id>[/]` parses back to its repo and id |
| Patterns.FirstPrSuffix | review.js:9 | finds a position where the anchored-at-end pattern matches, or proves there is none |
| Patterns.GetPR | review.js:69-74 | `getPR` succeeds iff `PR_RE` matches some suffix of the path, and then returns `https://github.com` followed by the path |
| Patterns.GetPRShape | review.js:69-74 | `getPR` succeeds iff the path is some prefix followed by `/nodejs/<repo>/pull/<id>` with an optional trailing slash |
| Escape.Replace | review.js:78-82 | a global replace of a character that does not occur returns the string unchanged |
| Escape.Passes | review.js:77-82 | the five chained global replaces, `&` first |
| Escape.EscapeHtml | review.js:76-83 | `escapeHtml` equals the single-pass substitution of each special character by its entity |
| Escape.EscapeHtmlSafe | review.js:76-83 | the output holds no raw `<`, `>`, `"` or `'` |
| Escape.EscapeHtmlAmpersands | review.js:76-83 | every `&` in the output begins one of the five entities, because `&` is replaced first |
| Escape.EscapeHtmlIdentity | review.js:76-83 | input without any of the five special characters comes back unchanged |
| Escape.EscapeHtmlRoundTrip | review.js:76-83 | decoding the five entities recovers the input exactly |
| Escape.EscapeHtmlIsEscapeEach | review.js:76-83 | the five sequential replace passes equal one pass that maps each character to its entity |
| Escape.ReplaceAppend | review.js:78-82 | a global replace distributes over concatenation |
| Escape.ReplaceOne | review.js:78-82 | a replace on one character substitutes it iff it is the target |
| Escape.PassesAppend | review.js:76-83 | the five passes distribute over concatenation |
| Escape.PassesRest | review.js:79-82 | the last four passes leave a string alone when it holds none of their four targets |
| Escape.PassesChar | review.js:76-83 | on one character the five passes give that character's entity, or the character itself |
| Escape.EscapeEachIsSafe | review.js:76-83 | the single-pass escape has no raw markup character, and each `&` starts an entity |
| Escape.EscapeEachIdentity | review.js:76-83 | the single-pass escape fixes strings without special characters |
| Escape.EscapeEachAppend | review.js:76-83 | the single-pass escape distributes over concatenation |
| Escape.EscapeHtmlChar | review.js:76-83 | `escapeHtml` of one character is that character's entity |
| Escape.EscapeHtmlAppend | review.js:76-83 | `escapeHtml` distributes over concatenation |
| Escape.UnescapeEntity | review.js:76-83 | decoding an entity followed by any text gives its character followed by the decoded text |
| Escape.UnescapeAt | review.js:76-83 | decoding reads each of the five entities at the head of a string as its character |
| Escape.UnescapePlain | review.js:76-83 | decoding keeps any character other than `&` as it is |
| Escape.UnescapeEscapeEach | review.js:76-83 | decoding inverts the single-pass escape |
| Reviews.Keys | review.js:87 | `map.keys()` lists the ledger's logins in insertion order |
| Reviews.Lookup | review.js:171 | a lookup finds a status iff the login is a key, and the pair is in the ledger |
| Reviews.LookupDistinct | review.js:165 | with distinct keys, each entry's status is what a lookup of its login returns |
| Reviews.CountAppend | review.js:159-165 | counting by status distributes over concatenation |
| Reviews.Set | review.js:165-172 | `Map.set` keeps the ledger length or appends exactly the new pair |
| Reviews.SetLookup | review.js:165-172 | after `set`, the key maps to the new status and every other key is unchanged |
| Reviews.SetShape | review.js:165-172 | setting an existing key keeps the key order; setting a new key appends it |
| Reviews.SetDistinct | review.js:165-172 | `set` keeps the ledger's keys distinct |
| Reviews.SetCount | review.js:165-172 | `set` adds one entry of the new status and removes the overwritten one |
| Reviews.SetBumpSound | review.js:159-173 | bumping the matching counter alongside `set` keeps `Sound`, and keeps `Exact` when the key was new |
| Reviews.WidgetStep | review.js:149-166 | one widget entry bumps exactly one counter, chosen by the green icon, and sets its lowered login to that status |
| Reviews.VerdictOf | review.js:153-155 | the status is APPROVED when the icon has the green class, and REJECTED otherwise |
| Reviews.WidgetLogin | review.js:156-165 | the ledger key of a widget entry is lower-case and one character shorter than its non-empty href |
| Reviews.WidgetStepEffect | review.js:153-165 | after one entry, its login maps to its verdict, other logins are untouched, `Sound` is kept, and `Exact` is kept for a new login |
| Reviews.GreensBound | review.js:153-163 | green entries are at most all entries, and fewer means some entry is not green |
| Reviews.WidgetPass | review.js:149-166 | after the widget loop, approvals grew by the green entries and rejections by all the others |
| Reviews.WidgetPassUntouched | review.js:149-166 | a login that no widget entry names keeps its status |
| Reviews.WidgetPassLastWins | review.js:165 | a login's final status is the verdict of its last widget entry |
| Reviews.WidgetPassSound | review.js:149-166 | the widget loop keeps the counters at or above the ledger's status counts |
| Reviews.WidgetPassExact | review.js:149-166 | with distinct new logins, the widget loop keeps the counters equal to the status counts |
| Reviews.CountTotal | review.js:153-155 | every ledger entry is either approved or rejected |
| Reviews.WidgetPassGrowth | review.js:149-166 | each widget entry adds at most one ledger entry |
| Reviews.WidgetPassKnownLogin | review.js:165 | an entry whose login is already in the ledger overwrites it, so the ledger ends shorter than the entry count allows |
| Reviews.WidgetPassRepeated | review.js:149-166 | when two widget entries share a login, the ledger ends shorter than the number of entries |
| Reviews.WidgetPassOvercounts | review.js:149-166 | whenever a login repeats in the widget, the counters exceed the ledger's status counts |
| Reviews.WidgetPassExactIff | review.js:149-166 | the widget loop alone gives exact counters iff no login repeats |
| Reviews.LgtmStep | review.js:171-174 | a known login changes nothing; an unknown one is appended as approved and bumps approvals |
| Reviews.LgtmPass | review.js:168-176 | the lgtm loop keeps rejections and every existing entry, appends only approvals, and bumps approvals once per appended login |
| Reviews.LgtmPassKeys | review.js:168-176 | after the loop, the keys are the previous keys plus the lgtm logins |
| Reviews.LgtmPassCounters | review.js:168-176 | the lgtm loop keeps `Sound` and `Exact` |
| Reviews.LgtmPassAppend | review.js:170 | running the loop over two lists in a row is running it over their concatenation |
| Reviews.LgtmPassKnown | review.js:171 | when every login is already a key, the loop changes nothing |
| Reviews.LgtmPassIdempotent | review.js:168-176 | running the loop a second time with the same logins changes nothing |
| Reviews.LgtmPassRepeat | review.js:171 | a repeated login in the lgtm list has no further effect |
| Reviews.RawReviews | review.js:181-204 | the lgtm logins are the lowered hrefs of exactly the comments with a non-empty author link and a body matching `LGTM_RE`; all are lower-case |
| Reviews.IsLgtmComment | review.js:191-198 | a comment counts when it has an author link with a non-empty href and a body matching `LGTM_RE` |
| Reviews.RawReviewsAppend | review.js:189-200 | the lgtm logins keep page order and multiplicity: collecting distributes over concatenation |
| Reviews.RawReviewsSnoc | review.js:189-200 | one more comment appends its author's lowered login exactly when it is an lgtm comment |
| Reviews.GetReviews | review.js:134-179 | rejections count the non-green widget entries; the widget ledger is kept as a prefix; approvals are the green entries plus one per appended lgtm login |
| Reviews.GetReviewsSound | review.js:134-179 | the counters never fall below the ledger's status counts |
| Reviews.GetReviewsExact | review.js:134-179 | when the widget lists each login once, the counters equal the ledger's status counts |
| Reviews.DuplicateWidgetOvercounts | review.js:159-165 | a login listed red then green leaves one rejection counted and no rejected entry |
| Gate.Rejecting | review.js:22-27 | the rejecting list has one login per rejected entry, and holds exactly the rejected logins |
| Gate.RejectingAppend | review.js:23-27 | the rejecting list of a concatenation is the concatenation of the lists, so ledger order is kept |
| Gate.NoRejectedAllApproved | review.js:21-27 | no rejected entry iff every entry is approved |
| Gate.ApprovedCount | review.js:46 | with no rejected entry, the approved count is the ledger length |
| Gate.Check | review.js:21-54 | not ready iff rejections > 0, listing exactly the rejected logins; no approvals iff both counters are 0; ready otherwise; once past the gate every entry of a sound ledger is approved |
| Gate.DuplicateWidgetNotReady | review.js:21-27 | a login shown red then green stops the script as not ready with an empty list of rejecting reviewers |
| Collaborators.Until | review.js:209-210 | a greedy negated class stops at the first occurrence of its excluded character |
| Collaborators.UntilAt | review.js:209-210 | the greedy scan stops exactly at the first occurrence |
| Collaborators.Group | review.js:209-210 | a captured group is non-empty, free of its excluded character, and followed by its literal |
| Collaborators.GroupAt | review.js:209-210 | a group that fits the text is found, with its end position |
| Collaborators.MatchAt | review.js:209-210 | a match at a position is a valid record whose text occupies the document from there |
| Collaborators.MatchStepsSound | review.js:209-210 | the staged matcher returns only valid records spelled out in the document |
| Collaborators.MatchHead | review.js:209 | the login-and-link part of a match ends inside the document |
| Collaborators.MatchTail | review.js:209-210 | the separator of the second stage is whitespace, the name and e-mail are non-empty, and the match ends inside the document |
| Collaborators.MatchSteps | review.js:209-210 | the two stages run in sequence and build the record from their groups |
| Collaborators.MatchAtText | review.js:209-210 | pieces that fit the pattern assemble to a valid record's text |
| Collaborators.MatchAtComplete | review.js:209-210 | every valid record written at a position is matched there, with that record |
| Collaborators.MatchAtFromPieces | review.js:209-210 | a record laid out piece by piece is what the staged matcher returns |
| Collaborators.MatchHeadOf | review.js:209 | the first stage returns the login and link it finds |
| Collaborators.MatchTailOf | review.js:209-210 | the second stage returns the separator, name and e-mail it finds |
| Collaborators.Scan | review.js:215 | the global match returns only valid records; `ScanLines` gives the converse for a listing |
| Collaborators.ScanMatches | review.js:215 | every record the global match returns is the pattern match at some position of the document |
| Collaborators.NoMatchAtEnd | review.js:209-210 | no record fits at the end of the document |
| Collaborators.MatchesFromStep | review.js:215 | a failed position does not change whether a match comes later |
| Collaborators.Lines | review.js:209-210 | a listing writes each record's text on its own line |
| Collaborators.NoMatchAtNewline | review.js:209 | no record starts at a line break, because the pattern opens with `*` |
| Collaborators.ScanRecordLine | review.js:215 | the global match from a record followed by a line break returns that record, then the matches after the line |
| Collaborators.ListingListed | review.js:209-210 | every record of a listing is the pattern match at the start of its line |
| Collaborators.ScanListed | review.js:215 | the global match over records laid out line by line returns all of them, in order |
| Collaborators.ScanLines | review.js:215 | the global match over a listing of valid records returns every record, in order, and nothing else |
| Collaborators.ParseLines | review.js:215-230 | a non-empty listing of valid records parses to the directory built from all of them, so every listed collaborator's lowered login is a key |
| Collaborators.ScanEmpty | review.js:215-216 | the global match is empty iff no position holds a record |
| Collaborators.DirectoryKey | review.js:223 | the directory key is the login lowered, with the login's length |
| Collaborators.DirectoryEntry | review.js:223-227 | the directory value holds the record's login, name and e-mail as written |
| Collaborators.Members | review.js:221-230 | the last record's lowered login is a key of the directory |
| Collaborators.MembersKeys | review.js:221-230 | the directory's keys are exactly the records' lowered logins |
| Collaborators.MembersLastWins | review.js:223-227 | a key maps to the login, name and e-mail of the last record with that key |
| Collaborators.MembersLast | review.js:221-230 | every directory entry comes from a record with that key |
| Collaborators.ParseDirectory | review.js:215-230 | zero matches is the parse error; otherwise the non-empty fold of all matches |
| Collaborators.SingleRecord | review.js:215-230 | a document of one record line gives a one-entry directory keyed by the lowered login |
| Collaborators.ScanSingle | review.js:215 | the global match over one record line finds just that record |
| Collaborators.OneMatch | review.js:215-230 | a document whose global match holds one record folds to that record's entry |
| Trailer.ReviewedByLine | review.js:93 | escaping `Reviewed-By: name <email>` escapes the name and the e-mail and turns the brackets into `&lt;` and `&gt;` |
| Trailer.ReviewedByShape | review.js:93 | the single-pass escape of the whole line is built from the escapes of its parts |
| Trailer.PrefixEscape | review.js:93 | `Reviewed-By: ` has nothing to escape |
| Trailer.OpenEscape | review.js:93 | ` <` escapes to ` &lt;` |
| Trailer.CloseEscape | review.js:93 | `>` escapes to `&gt;` |
| Trailer.Present | review.js:87-92 | skipping unknown reviewers never adds a key |
| Trailer.PresentMembers | review.js:87-92 | the kept keys are exactly the ledger keys found in the directory; all are kept when all are known |
| Trailer.PresentAppend | review.js:87-92 | skipping unknown reviewers keeps ledger order: it distributes over concatenation |
| Trailer.ReviewedBy | review.js:87-94 | one line per kept key |
| Trailer.ReviewedByAppend | review.js:87-94 | the rendered lines keep ledger order: rendering distributes over concatenation |
| Trailer.ReviewedByLines | review.js:87-94 | line i is the attribution of the i-th kept key's directory entry |
| Trailer.FormatMeta | review.js:85-104 | the `PR-URL:` line comes first, then one line per ledger key found in the directory; no key is skipped when all are known |
| Trailer.FormatMetaLine | review.js:85-104 | line i+1 is the escaped attribution of the i-th known ledger key and holds no raw markup character |
| Trailer.ReviewedByLineSafe | review.js:93 | an attribution line holds no raw `<`, `>`, `"` or `'`, whatever the name and e-mail |
| Review.Run | review.js:11-67 | the script stops silently iff `getPR` fails |
| Review.Gated | review.js:21-67 | past the page check the outcome is never silent; not ready iff rejections > 0; no approvals iff both counters are 0; metadata starts with the `PR-URL:` line of the page URL |
| Review.RunPrUrl | review.js:96-98 | the metadata starts with `PR-URL: https://github.com` followed by the page path |
| Review.RunNotReady | review.js:21-44 | "not ready" lists exactly the rejected ledger logins, and happens only when some widget entry is not green |
| Review.RunNoApprovals | review.js:46-54 | "no approvals" happens iff the page is a pull request with no widget entry and no lgtm comment |
| Review.RunMetadata | review.js:56-67 | metadata is printed only from a fetched README that holds a record, after a gate that passed with every reviewer approved |
| Review.RunCollaboratorsUnavailable | review.js:56-63 | the collaborator error appears iff the page is a pull request that passed the gate and the README is missing or holds no record |

## Left out

- DOM access is not modelled. The script reads the widget entries, icon classes, author links and comment bodies with `querySelector`. The model takes them as `WidgetItem` and `Comment` values instead. This also leaves out the filter that drops the widget's "Details" links (review.js:142) and the filter that drops `discussion-item-review` items (review.js:183-185). Both only decide which elements become inputs.
- `showMessage` and `getClassForType` (review.js:106-132) only build and insert HTML. The model returns an `Outcome` in their place.
- The HTML around the messages is not modelled: the `<li>` list, the `<br>` joins and the template text. `Trailer.FormatMeta` returns the metadata as lines.
- The README `fetch` and its promise chain (review.js:211-241) are not modelled. The fetched text is an `Option<string>` input, and `None` stands for any failed fetch. One quirk of that chain is not modelled: when the fetched README holds no record, the script reports the parse error through `cb(err)` (review.js:218), the next `.then` still calls `cb(null, undefined)` (review.js:238-240), `formatMeta` then throws when it looks up the first reviewer in the missing directory (review.js:88), and `.catch(cb)` (review.js:241) reports a second error. The model reports the parse error once.
- The `Could not find any collaborators` throw (review.js:232-234) is not modelled. In the model at least one match always gives at least one key (`Collaborators.ParseDirectory`). In JavaScript the throw can happen, through the `__proto__` case described below.
- `console.error` calls are not modelled. They are logging only.
- `Text.LowerChar` lowers ASCII letters only. JavaScript's `toLowerCase` also maps non-ASCII letters. GitHub logins are ASCII. Strings in the model are sequences of code points, while JavaScript strings are sequences of UTF-16 code units, so `slice(1)` (review.js:158, review.js:196) would drop only half of a leading surrogate pair; logins and hrefs are ASCII, so the two agree there.
- `Collaborators.ParseDirectory` returns a map from keys to entries, not a JavaScript object. So keys such as `constructor`, which a plain object inherits from its prototype, are not modelled as present in the directory. For the same reason a record whose lowered login is `__proto__` is not modelled faithfully. In JavaScript, `set['__proto__'] = …` (review.js:223) replaces the object's prototype and creates no own key. A README whose only records have that login makes `Object.keys(members)` empty, so the throw at review.js:233 fires and the collaborator error is shown. The model returns `Success` with a `__proto__` key instead.
- `index.js` is not part of this model. It wires the extension to pages and uses a start-anchored form of `PR_RE`.
- `Collaborators.MatchAt` does not model the second `item.match(new RegExp(RE))` at review.js:222. It uses the groups of the global match directly. Re-matching a matched record from its first character finds the same groups, because every group is a greedy negated class followed by a literal that starts with the excluded character.
