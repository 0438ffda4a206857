# phvotewatcher: the lead computation and message markup, in Dafny

phvotewatcher is a small Go program that polls an election-results feed,
reduces the raw candidate tallies to a single lead (the tracked candidate's
vote count minus the best count of any other candidate), reads how many
election returns have been processed, and, when that figure has moved since
the last run, posts a Markdown message about the lead to a chat bot.

This project models the parts of `main.go` that are logic rather than I/O:

- `margin.dfy`, module `Margin`: the nested loops at the end of `gmaFetch`
  that walk every candidate of every contest in feed order, keep the vote
  count of the fixed target name `"ROBREDO, LENI (IND)"` in `leni` and the
  running maximum of every other candidate's count in `opposer` (starting at
  0), and return `leni - opposer`. `ComputeLead` is that loop, with its
  invariants stated against two specification functions over the flattened
  feed: `TargetCount` (the count of the last target row, or 0) and
  `BestOpponent` (the largest of 0 and the non-target counts). The lemmas
  say what these mean.
- `returns_processed.dfy`, module `ReturnsProcessed`: the split of the
  `"count/total"` returns-processed string with Go's `strings.Split` on `/`,
  of which `gmaFetch` reads only the first two fields. `Split` models
  `strings.Split` completely (there is always at least one field), `Join` is
  its inverse, and `ProcessedFields` returns those two fields, or `None` when
  there is no second field.
- `markup.dfy`, module `Markup`: the choice in `main` of the Markdown
  modifier from the sign of the lead's percentage change (a backtick when
  negative, a star when positive, nothing otherwise) and the wrapping of the
  lead text with that modifier on both sides.

A returns-processed string without `/` has no second field. `gmaFetch`
parses the first field before it reads the second, so such a string ends in
one of two ways: when the first field is not a number (for instance the empty
string), `gmaFetch` returns the `strconv.ParseFloat` error; when it is a
number, reading `recorded[1]` is out of range and the program panics.
`ProcessedFields` returns `None` in both cases.

## Model

| member | source | states |
|---|---|---|
| `Margin.TargetCount` | main.go:188-195 | the specification of `leni`: it is 0 or the count of some target row |
| `Margin.BestOpponent` | main.go:189-198 | the specification of `opposer`: it is never negative, since it starts at 0 and is only replaced by a larger value |
| `Margin.Lead` | main.go:211 | the stored lead `leni - opposer` never exceeds the target's own count |
| `Margin.ComputeLead` | main.go:188-200 | the nested loops return exactly `TargetCount - BestOpponent` of all candidates in contest-then-candidate order |
| `Margin.VisitOne` | main.go:191-198 | one candidate: a target row sets the tracked count and leaves the opponent count alone; any other row raises the opponent count only when its count is strictly larger (the one-step unfolding of the two definitions, used by the loop proof) |
| `Margin.FlattenNext` | main.go:190-191 | the candidates of the next contest are visited after all earlier contests' |
| `Margin.FlattenMembers` | main.go:190-191 | the rows visited are exactly the candidates of all contests |
| `Margin.BestOpponentIsUpperBound` | main.go:190-199 | `opposer` is at least the count of every non-target candidate |
| `Margin.BestOpponentIsAttained` | main.go:189-198 | `opposer` is 0 or the count of some non-target candidate |
| `Margin.BestOpponentIsMaxOfZeroAndOthers` | main.go:189-199 | any value that is non-negative, bounds every non-target count and is 0 or attained equals `opposer`: it is the maximum of 0 and the other candidates' counts |
| `Margin.BestOpponentIgnoresTarget` | main.go:192-195 | inserting a target row anywhere does not change `opposer` (the `continue` skips the update) |
| `Margin.TargetCountIgnoresOthers` | main.go:192-193 | inserting a non-target row anywhere does not change `leni` |
| `Margin.TargetCountAbsent` | main.go:188-193 | with no target row `leni` stays 0 |
| `Margin.TargetCountIsLast` | main.go:188-193 | `leni` is the count of the last target row in feed order |
| `Margin.OpponentCoversEveryContest` | main.go:190-199 | stated over the nested contests: every non-target candidate of every contest has a count at most `opposer` |
| `Margin.LeadWithoutTarget` | main.go:211 | when no contest lists the target, the lead is `-opposer`, which is at most 0 |
| `ReturnsProcessed.Split` | main.go:201 | `strings.Split` on `/` always yields at least one field |
| `ReturnsProcessed.JoinSplit` | main.go:201 | joining the fields with `/` gives back the original string |
| `ReturnsProcessed.SplitJoin` | main.go:201 | splitting a `/`-join of separator-free fields gives back those fields |
| `ReturnsProcessed.SplitHasNoSeparators` | main.go:201 | no field contains `/` |
| `ReturnsProcessed.SplitWithoutSeparator` | main.go:201 | a string without `/` is a single field |
| `ReturnsProcessed.SplitAfterField` | main.go:201 | a separator-free prefix followed by `/` is split off as the first field |
| `ReturnsProcessed.SplitHasTwoFieldsIff` | main.go:201 | there is a second field if and only if the string contains `/` |
| `ReturnsProcessed.ProcessedFields` | main.go:201-206 | the first two fields of the split; `None` (no `recorded[1]`) exactly when the string has no `/` |
| `ReturnsProcessed.ProcessedFieldsSound` | main.go:201-206 | on success, the two fields are separator-free, the string starts with `count/total`, and what follows is nothing or another `/` (further fields are ignored) |
| `ReturnsProcessed.ProcessedFieldsComplete` | main.go:201-206 | conversely, `count/total` followed by nothing or by `/…` yields exactly `count` and `total` |
| `Markup.Modifier` | main.go:154-160 | the modifier is a backtick exactly for a negative change, a star exactly for a positive one, and empty exactly for neither |
| `Markup.WrapLead` | main.go:162 | the wrapped lead is the modifier, then the lead text, then the same modifier |
| `Markup.WrapLeadInjective` | main.go:154-162 | a wrapped lead whose text does not itself start with a modifier determines both the sign and the text |

## Left out

- HTTP: the request, the `referer` header and the response body handling in `gmaFetch`, the unused Rappler `fetch`, and `sendMessage` are network I/O.
- Files and JSON: `save`, `load`, `parseConfig` and the payload marshalling in `constructPayload` are file I/O and library encoders; the decoded feed is the input `seq<seq<Candidate>>` and the returns-processed string.
- The `RapplerResult` and `RapplerResponse` shapes belong only to the unused `fetch`; the party field of a candidate is never read and is dropped.
- Number parsing: `strconv.ParseFloat` of the two fields, its error return, and the `count / total` division are floating point; the model stops at the two field strings.
- The change check on the processed fraction (exact float equality), the percentage change `(old - new) * 100 / new` (which gives an infinity or NaN when the new lead is 0), and the `%.2f` and locale-aware formatting of the message are floating point and a formatting library; `Markup` takes the change's sign as a `Sign` and the formatted lead text as a string. A NaN change is neither below nor above zero, which corresponds to `Zero`.
- Flag parsing and the print-and-return error handling in `main` are command-line plumbing.
- ReturnsProcessed.ProcessedFields: `None` does not tell apart the two ways `gmaFetch` stops on a string without `/`, the `strconv.ParseFloat` error for a non-numeric first field (main.go:202-204) and the index panic at main.go:206 for a numeric one, because number parsing is not modelled.
- Margin.ComputeLead: vote counts are unbounded integers; overflow of Go's `int` in `leni - opposer` is not modelled.
