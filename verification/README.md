# tinybot: line-count reports on pull requests, in Dafny

tinybot is a small GitHub bot. It looks at the open pull requests of a
repository and counts the lines each one adds and deletes under one project
directory (`tinygrad/` by default). It renders those counts as a fixed-width
table in a code block and keeps exactly one comment with that table on each
pull request. The bot creates the comment when it has none, edits its newest
comment when the text changed, and deletes any older copies.

This project models the bot's core as one pipeline of pure functions and
proves properties of it:

- **Diff aggregation** (`get_lines`), module `Diff`: for each pull request,
  the changed files under the directory in list order, then a synthetic
  `total` row. A pull request that touches nothing under the directory gets
  no entry at all.
- **Report rendering** (`_write_comment`), module `Report`: the title, the
  fence, the rules, the header, one line per row (the name padded to 38
  columns, the additions right-aligned in 5 and the deletions in 15), and
  the net-lines summary. The `total` row
  is skipped when the list has at most two entries; otherwise an extra rule
  precedes it.
- **Comment reconciliation** (`create_or_update_comments`,
  `_list_my_comments`, `_delete_duplicate_comments`), modules `CommentStore`
  and `Reconcile`. These work against an abstract comment store whose
  requests may fail.
- **The whole script** (`get_lines` followed by `create_or_update_comments`),
  module `Bot`.

Supporting modules: `Wrappers` (an `Option` type) and `Text`. `Text` models
the Python string operations the bot relies on: `startswith`, `replace`,
padding to a width, and `str(int)`, with a reader that inverts it.

The two loops of `get_lines` (main.py:34, 36) and the row loop of
`_write_comment` (main.py:54) are also written as loops (`Diff.GetLines`,
`Diff.CollectRows`, `Report.AppendRows`) and proved equal to the functional
definitions. The remaining loops are modelled only as recursive functions:
the comment filter (main.py:69) as `CommentStore.Authored`, the delete loop
(main.py:75) as `Reconcile.Deletions`, and the pull-request loop (main.py:80)
as `Reconcile.Run`.

Requests and failure. Every request that `create_or_update_comments` sends
(the listing GET, POST, PATCH and DELETE) is a `CommentStore.Call`, and
`Apply` gives its effect on a success status. The GETs of `list_prs` and
`list_pr_files` are not calls of the model; their results are its input. Requests are numbered in the
order they are sent. `failAt` is the number of the first request that gets a
non-success status, or `None` when every request succeeds.

- A failed request changes nothing in the store.
- Because the source's `assert` on the status code is never caught, the whole
  run stops at that request: no later pull request is visited.
- Comment ids stand for the comment URLs that PATCH and DELETE address.
- The store invariant (`CommentStore.Valid`) is that ids are unique within a
  collection and every id is below the store's next id, which is what makes
  the id a POST hands out fresh.

Two behaviours of the code that the model keeps exactly:

- **Failure scope.** An uncaught `assert` on a status code ends the whole
  run, not only the current pull request (main.py:67, 77, 88, 93).
- **When the extra rule appears.** The extra rule and the `total` line
  appear only when the list has more than two entries, that is, at least two
  matched files (main.py:57).

Two behaviours of the source are reproduced as written:

- **Fixed folder name.** The summary line always reads "lines added in the
  tinygrad folder", whatever the configured directory is.
- **`total` by name.** The `total` row is recognised by its name. A matched
  file literally named `total` would be treated the same way, so the lemmas
  about a pull request's table shape assume there is no such file.

## Model

| member | source | states |
|---|---|---|
| Text.LeftJustify | main.py:59 | `{s:<w}` is `s` followed by spaces up to width `w`; a longer `s` is kept whole |
| Text.RightJustify | main.py:59 | `{s:>w}` is spaces up to width `w` followed by `s`; a longer `s` is kept whole |
| Text.NatToString | main.py:59 | `str(n)` of a count is a canonical decimal numeral (digits only, no leading zero) |
| Text.NatToStringRoundTrip | main.py:59 | reading `str(n)` back as a number gives `n` |
| Text.ParseNatRoundTrip | main.py:59 | every canonical numeral is what `str` prints for its value, so the count column has one spelling per value |
| Text.NatToStringWidth | main.py:59 | for a width `k` of at least 1, `str(n)` fits in `k` columns exactly when `n < 10^k` |
| Text.IntToString | main.py:61 | `str(i)` is non-empty and starts with a minus sign exactly when `i` is negative |
| Text.IntToStringRoundTrip | main.py:61 | `str(i)` of the possibly negative net value reads back as `i` |
| Text.ReplaceAll | main.py:82 | `str.replace`: every non-overlapping occurrence, scanning left to right, is replaced; it carries no contract of its own, and its laws are ReplaceAbsent and ReplaceSplit |
| Text.ReplaceSplit | main.py:82 | `str.replace` distributes over a split where no occurrence of the pattern can straddle the seam |
| Text.ReplaceAbsent | main.py:82 | `str.replace` leaves a string without the pattern unchanged |
| Text.StartsWith | main.py:37 | `str.startswith`: the prefix is no longer than the string and equals its first characters; it carries no contract of its own, and MatchedRows, MatchIndices and DiffRowsEmpty state what the test selects |
| Diff.MatchedRows | main.py:36-41 | every collected row is a file whose name starts with the project directory |
| Diff.MatchIndices | main.py:36-37 | the positions of the matching files: in range, all of them, strictly ascending |
| Diff.MatchedRowsAreSelection | main.py:36-41 | the rows are exactly the matching files, with their counts, in the order of the file list |
| Diff.TotalRow | main.py:39-44 | the synthetic `total` row with the running sums of additions and deletions; it carries no contract of its own, and its law is stated by DiffRows and TotalCountsMatchedFiles |
| Diff.DiffRows | main.py:35-44 | a non-empty row list has at least two rows, and its last row is the total of all the rows before it |
| Diff.DiffRowsEmpty | main.py:43-44 | a pull request's row list is empty exactly when none of its files is under the directory |
| Diff.OutsideFileIgnored | main.py:37 | inserting a file outside the directory anywhere in the list changes neither the rows nor the total |
| Diff.TotalCountsMatchedFiles | main.py:39-44 | the total row's additions and deletions are the sums over the matched files, however the list is split |
| Diff.LinesByPr | main.py:43-44 | every entry of the result map has a non-empty row list, and there are no more entries than pull requests |
| Diff.TouchedIndices | main.py:34-44 | the positions of the pull requests that get an entry: in range and strictly ascending |
| Diff.LinesByPrIsSelection | main.py:32-45 | the entries are exactly the pull requests at those positions with their rows, in input order, so the result keeps the input order |
| Diff.LinesByPrDistinct | main.py:32-45 | pull requests with distinct URLs (as dict keys are) give entries with distinct URLs: at most one entry per pull request |
| Diff.LinesByPrSound | main.py:32-45 | every entry is some input pull request's URL with that request's rows |
| Diff.LinesByPrComplete | main.py:43-44 | a pull request has an entry with its rows exactly when at least one of its files matched |
| Diff.UntouchedPrHasNoEntry | main.py:43-44 | a pull request with no matching file has no key in the result map |
| Diff.CollectRows | main.py:35-44 | the inner loop, with its running counters, builds exactly the functional row list |
| Diff.GetLines | main.py:32-45 | the outer loop builds exactly the functional result map, in input order |
| Report.FormatRow | main.py:59 | a row line is at least 61 characters long, starts with the file name and ends in a newline |
| Report.FormatRowWidth | main.py:59 | a row line is exactly 61 characters long exactly when the name fits 38 columns and the counts fit 5 and 15 digits |
| Report.RowRoundTrip | main.py:59 | splitting a row line at spaces gives back the name and both counts, for a name without spaces |
| Report.Summary | main.py:61 | the summary line, the fixed label and `str` of the net value; it carries no contract of its own, and its law is SummaryRoundTrip |
| Report.SummaryRoundTrip | main.py:61 | the summary line is the fixed label followed by the net value, which reads back exactly |
| Report.Title | main.py:48 | the title line naming the project directory; it carries no contract of its own, and Render states that the body starts with it and that the directory reads back from it |
| Report.RowsText | main.py:54-59 | the text the row loop appends; it carries no contract of its own, and its laws are AppendRows (the loop produces it) and DiffTable (its shape for a pull request's rows) |
| Report.Render | main.py:47-63 | the body starts with the title naming the directory and ends with the closing fence |
| Report.WriteComment | main.py:47-63 | the source's sequence of appends produces exactly the rendered body |
| Report.AppendRows | main.py:53-59 | the loop appends each row's text in order and leaves `lines_added` at the net value of the last `total` row |
| Report.RowText | main.py:55-59 | an iteration adds nothing exactly for a `total` row in a list of at most two entries; otherwise its text ends with the formatted row |
| Report.NetLines | main.py:53-56 | a non-zero `lines_added` is the additions minus the deletions of some row named `total` |
| Report.NetLinesIsLastTotal | main.py:55-56 | the net value is the additions minus the deletions of the last row named `total` |
| Report.NetLinesWithoutTotal | main.py:53 | the net value is 0 when no row is named `total` |
| Report.NetLinesOfDiff | main.py:53-56 | for a pull request's rows the net value is matched additions minus matched deletions, and 0 when nothing matched |
| Report.DiffTable | main.py:54-59 | the table lists the matched files in order; a single file gets no `total` line, two or more get a rule and the `total` line |
| CommentStore.Authored | main.py:69-71 | the filter keeps exactly the comments by the given author (or exactly the others), in thread order |
| CommentStore.Patched | main.py:87 | a PATCH changes only the body of the addressed comment; ids, authors and order stay |
| CommentStore.Without | main.py:76 | a DELETE removes exactly the addressed comment |
| CommentStore.Apply | main.py:76-92 | a successful request changes no collection but the one it addresses, and only a POST uses up a new comment id |
| CommentStore.ApplySparesOthers | main.py:76-93 | a request that posts in the bot's name or addresses a bot comment leaves every other author's comments unchanged |
| Reconcile.CommentsUrl | main.py:82 | the comments collection ends in `/comments`; a URL without `pulls` only gains that suffix |
| Reconcile.Mine | main.py:69-71 | the kept comments are comments of the thread, all by the bot's login, and no more than the thread has |
| Reconcile.Plan | main.py:85-93 | a lone POST exactly when the bot has no comment; otherwise a PATCH of the newest bot comment exactly when its body differs, and then exactly one DELETE per older bot comment, oldest first |
| Reconcile.Deletions | main.py:74-77 | one DELETE per older comment, in list order |
| Reconcile.Issue | main.py:86-93 | requests are sent in order; the run fails exactly when request `failAt` is among them, and that request is the last one sent |
| Reconcile.ReconcilePr | main.py:80-93 | the listing is sent first; the pull request fails exactly when request `failAt` is one of its own, and nothing follows it |
| Reconcile.Run | main.py:79-93 | nothing is sent after a failing request, and the run fails exactly when request `failAt` was reached |
| Reconcile.IssueLocal | main.py:86-93 | requests addressed to one collection, whether or not they succeed, leave every other collection unchanged |
| Reconcile.IssueSpares | main.py:86-93 | requests that each spare other authors' comments leave every other author's comment unchanged, whether or not they succeed |
| Reconcile.PlanSpares | main.py:85-93 | every planned request addresses the pull request's own collection and spares other authors' comments |
| Reconcile.PlanPosts | main.py:91-93 | with no bot comment, the plan leaves one new bot comment with the body, and the others stay |
| Reconcile.PatchNewest | main.py:86-88 | the optional PATCH gives the newest bot comment the new body and nothing else changes |
| Reconcile.DeleteOlder | main.py:89-90 | deleting the older bot comments oldest first leaves only the newest one |
| Reconcile.DeleteOlderEffect | main.py:89-90 | the deletions remove the older bot comments and no one else's |
| Reconcile.PlanKeepsNewest | main.py:85-90 | with bot comments, the plan leaves only the newest one, with its id, carrying the new body |
| Reconcile.PlanConverges | main.py:85-93 | after the plan there is exactly one bot comment with the body: the newest old one (same id) or a new one |
| Reconcile.ReconcileConverges | main.py:80-93 | when every request succeeds, one pull request ends with exactly one bot comment with the rendered body; other authors and other collections are untouched |
| Reconcile.ReconcileValid | main.py:80-93 | whatever fails, comment ids stay unique in every collection |
| Reconcile.ReconcileContained | main.py:80-93 | whatever fails, only this pull request's collection changes, and no other author's comment changes |
| Reconcile.ReconcileNoOp | main.py:85-90 | on a pull request that already has exactly one bot comment with the body, only the listing is sent |
| Reconcile.ReconcileIdempotent | main.py:80-93 | a second reconciliation of the same pull request sends only the listing and changes nothing |
| Reconcile.RunValid | main.py:79-93 | whatever fails, a run keeps comment ids unique in every collection |
| Reconcile.RunLocal | main.py:79-93 | whatever fails, a collection that belongs to none of the given pull requests is unchanged |
| Reconcile.RunKeepsOthers | main.py:79-93 | whatever fails, a run changes no comment written by anyone other than the bot |
| Reconcile.RunConverges | main.py:79-93 | when every request succeeds, each given pull request ends with exactly one bot comment holding its rendered report |
| Reconcile.RunNoOp | main.py:79-93 | a run over converged pull requests sends one listing per pull request and nothing else |
| Reconcile.RunIdempotent | main.py:79-93 | when no two pull requests share a comments collection, running again after a successful run sends only listings and leaves the store as it was |
| Reconcile.CommentsUrlOfPull | main.py:82 | for a pull request URL `<base>/pulls/<n>`, the comments collection is the base with its own `pulls` rewritten to `issues`, then `/issues/<n>/comments`; a base without `pulls` is kept as it is |
| Reconcile.CommentsUrlsDiffer | main.py:82 | different pull request numbers under any one base give different comments collections |
| Bot.Pipeline | main.py:99-100 | requests are numbered from 0 over the whole run; the run fails exactly when request `failAt` is sent, and that request is the last one |
| Bot.LinesByPrTargets | main.py:80-82 | pull requests with distinct comments collections keep them distinct through the result map |
| Bot.UntouchedPrUnchanged | main.py:99-100 | when no two pull requests share a comments collection, a pull request that touches nothing under the directory keeps its conversation unchanged, whatever fails |
| Bot.TouchedPrConverges | main.py:99-100 | when every request succeeds, each pull request that touches the directory ends with exactly one bot comment holding the report of its files |
| Bot.OthersUnchanged | main.py:99-100 | whatever fails, a run never changes a comment written by anyone other than the bot |
| Bot.PipelineIdempotent | main.py:99-100 | when no two pull requests share a comments collection, a second run sends no POST, PATCH or DELETE and leaves the store unchanged |

## Left out

- HTTP transport is abstracted to the `Call` datatype and its `Apply` effect. This covers headers, the token, timeouts, redirects, JSON decoding and the dotenv configuration (main.py:8-15).
- `list_prs` and `list_pr_files` (main.py:17-30) are I/O only. The model takes the pull requests and their changed files as input.
- The `print` of each pull request's action (main.py:84) has no effect on the outcome and is left out.
- The `int(...)` coercions (main.py:38, 56) are not modelled. Counts are natural numbers already.
- Pagination is not modelled:
  - `list_prs` and `list_pr_files` send `per_page` as a header (main.py:18, 25), not as a query parameter.
  - `_list_my_comments` sends no page size at all.
  - GitHub returns only the first page, so the real bot can miss comments. The model assumes a listing returns the whole collection.
- The account behind the token is assumed to be the configured `user`. The store records the poster as `user`.
- A request with a non-success status is assumed to have had no effect. A failed DELETE or PATCH that took effect on the server anyway is not modelled.
- No other writer touches a collection while the bot is working on it. This means no concurrency and no webhooks.
- Report.DiffTable: stated only for pull requests where no matched file is named `total`. The source recognises that row by its name, and such a file would change the shape.
- Reconcile.RunConverges: assumes no two pull requests share a comments collection. The source does not check this. Reconcile.CommentsUrlsDiffer shows it holds for pull requests of one repository, whose URLs differ only in the number.
- Bot.TouchedPrConverges: assumes the same distinctness, through `Bot.DistinctTargets`.
- Reconcile.CommentsUrlOfPull: stated for pull request numbers that do not contain "pulls", as GitHub's numeric ones do not.
- Reconcile.CommentsUrlsDiffer: stated for the same numbers, for any base.
- Strings are sequences of characters. Padding widths count characters, as Python does for `str`, and there is no Unicode normalisation.
- Reconcile.RunIdempotent: assumes no two pull requests share a comments collection. When two do, each run patches the shared comment back to its own body, in the source as in the model.
- Bot.UntouchedPrUnchanged: assumes the same distinctness, through `Bot.DistinctTargets`. A pull request whose collection is shared with a touched one does see that one's comment.
- Bot.PipelineIdempotent: assumes the same distinctness, through `Bot.DistinctTargets`, for the reason given for Reconcile.RunIdempotent.
