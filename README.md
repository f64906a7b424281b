# Contribution ledger of the 2026 SF Editathon, modelled in Dafny

The contest keeps its ledger as wikitext. Each participant has a contribution page: tables whose rows
carry `{{2026SFEditasonStatus|status|score}}` annotations. The bot and the review server read and write
this text with a few string functions. The report job turns the ledger into the leaderboard page.

This project models those text functions and proves what they promise:

- **Parser** (`parseContributionPageWithDetails`, `parseContributionPage`). Strips comments, normalises
  continuation lines, tracks whether a line lies inside a table, and scans each table line for
  annotations. Returns the items with line numbers and per-line template indices, the entry count and
  the total score.
- **Rewriter** (`updatePageContentWithTemplates`). Normalises the page its own way, groups the updates
  by line, sorts each group by template index, and rewrites the k-th annotation of a line with the k-th
  update of its group.
- **Page splicers**:
  - `addItemBetweenNoinclude` appends an entry between `</noinclude>` and `<noinclude>`.
  - `updateUserPageContent` rewrites the two numbers of the user page's mbox.
- **Leaderboard page**:
  - `replaceTableContent` replaces the body of a ranking table.
  - `generateRows` writes a table's rows.
  - `updateTimestamp` splices in the "last updated" line.
- **Report helpers**: `extractUsernames` collects user names from links; the report batches them by 50
  and counts participants per range of edit counts.

Modules:

| module | file | models |
|---|---|---|
| `Text` | `text.dfy` | `indexOf`, `startsWith`, `trim`, `split`/`join`, literal `replace`, decimal numbers |
| `Normalise` | `normalise.dfy` | comment stripping and the two line normalisations (parser and rewriter), kept separate |
| `Parser` | `parser.dfy` | the parser, imperative, proved against the function `Parse` |
| `Rewriter` | `rewriter.dfy` | the rewriter, imperative, proved against the function `Rewrite` |
| `PageSplicers` | `splicers.dfy` | `addItemBetweenNoinclude`, `updateUserPageContent` |
| `Timestamp` | `timestamp.dfy` | the splice of `updateTimestamp` |
| `Leaderboard` | `leaderboard.dfy` | `replaceTableContent`, `generateRows` |
| `Usernames` | `usernames.dfy` | `extractUsernames` and the batching of user names |
| `EditBuckets` | `buckets.dfy` | the edit-count ranges |

### How the model is written

- **Regular expressions** become deterministic scanner functions. Each returns the match that
  JavaScript's backtracking engine finds. A comment at each scanner explains why backtracking cannot
  change its result. "Leftmost" lemmas show that the match found is the first one.
- **Loops** stay loops. Each looping method is proved against a specification function.
- **The page** is a `seq<char>`, one element per Unicode character. Where the code compares a string
  index with a number, the model counts UTF-16 code units as JavaScript does: the 100-unit window of
  `updateTimestamp` is measured with `Timestamp.Utf16Length`, so a leaderboard line full of the
  new-star mark (a character outside the Basic Multilingual Plane) widens it as it does in the code.

### Where the code and its description differ

In every case below the model follows the code.

- **A table closer rarely closes the table in the parser.** The parser's normalisation turns every line
  break followed by a `|` other than `|-` into `||`, so a `|}` line is joined to the line before it.
  The `|-|` split puts it back on a line of its own only when that line ends in `|-`, as a bare row
  separator does. Otherwise a line trimmed to exactly `|}` survives only as the page's first line, or
  when white space precedes the `|}`. `Parser.CloserAfterSeparator` shows a closer after a bare `|-`
  line closing the table. `Parser.CloserAfterRow` shows a closer after a row joined to that row, so the
  parser stays inside the table. `Parser.ClosesTableExactly` and `Parser.ItemsInsideTables` state the
  general rule.
- **Rewriter pairing is by position.** The k-th annotation of a line is paired with the k-th update
  after sorting. It is not paired with the update whose `templateIndex` is k (`Rewriter.PairedByPosition`).
- **A missing `newScore` is written out.** It is not the empty string, so the template gains the
  parameter `|undefined`.
- **No updates is not always the identity.** With no updates the result is the rewriter's normalised
  lines joined by line breaks (`Rewriter.RewriteWithoutUpdates`). A joined line break comes back only
  where a split restores it: after a line ending in `|-`, and before a `|}`. So a row or a closer
  right after a `|-` line, and a closer after a row, come back as written
  (`Rewriter.SeparatorCloserUnchanged`, `Rewriter.RowCloserUnchanged`). A row right after `{|` or
  after another row stays joined to the line above: `{|`, `| x`, `|}` becomes `{||| x`, `|}`
  (`Rewriter.OpeningRowStaysJoined`). A page without continuation lines, run-together row separators
  or closers run onto a line comes back unchanged (`Rewriter.NormalPageUnchanged`).

## Model

| member | source | states |
|---|---|---|
| Normalise.StripComments | utils.js:17 | removing comments never lengthens the text |
| Normalise.CommentIsRemoved | utils.js:17 | a comment is removed with everything inside it, the text around it is kept |
| Normalise.StripCommentsStep | utils.js:17 | the first opener and the first closer after it delimit what is removed; the rest is stripped the same way |
| Normalise.StripCommentsNone | utils.js:17 | text without a comment opener is unchanged |
| Normalise.CollapsePipesBeforeClose | utils.js:20 | collapsing the pipe runs before `}}` never lengthens the text |
| Normalise.ParserLines | utils.js:20 | the parser walks at least one line, and no line holds a line break |
| Normalise.RewriterLines | utils.js:115-119 | there is one rewriter line per piece of the joined and re-split page; joined by line breaks they give that page with every table closer run onto a line (double pipe and closing brace) cut back to a line break and a closer; no line holds a closer run onto it any more |
| Normalise.JoinSplitTableClose | utils.js:119 | cutting run-on closers line by line and then joining gives the same text as cutting them in the joined text |
| Normalise.SplitTableCloseClean | utils.js:119 | after the cut no run-on closer (double pipe and closing brace) is left in a line |
| Normalise.SeparatorCloserLines | utils.js:20 | the parser reads a table opener, a bare row separator and a closer as three lines, the closer on a line of its own |
| Normalise.RowCloserLines | utils.js:20 | the parser reads a table opener, a bare row separator, a one-cell row and a closer as three lines, the closer joined onto the row |
| Normalise.RewriterViewOfNormalPage | utils.js:115-119 | a page without continuation lines, run-together row separators or table closers run onto a line is joined back from the rewriter's lines exactly |
| Parser.LazyStatus | utils.js:62 | the lazy status group only ends at a well-formed match: status up to the optional score and `}}` |
| Parser.StatusMatchAt | utils.js:62 | a match found at a position starts there and is well formed |
| Parser.FindStatus | utils.js:68 | one `exec` returns a well-formed match at or after `lastIndex` |
| Parser.FindStatusLeftmost | utils.js:68 | `exec` returns the leftmost match; nothing matches before it |
| Parser.StatusMatches | utils.js:68-101 | every match of the global pattern lies inside the line, from `lastIndex` on |
| Parser.StatusMatchWellFormed | utils.js:62-68 | every match found by the loop is well formed |
| Parser.StatusMatchesOrdered | utils.js:68-101 | the successive matches do not overlap and come left to right |
| Parser.ScoreText | utils.js:74 | the captured score consists of digits and dots only |
| Parser.MatchedTemplateRoundTrip | utils.js:62-98 | the matched template equals the template rebuilt from its status and score; the score is empty exactly when the optional group did not match |
| Parser.EntryName | utils.js:48-57 | the entry name is empty when the line has no pipe, and is otherwise trimmed at both ends |
| Parser.ClosesTableExactly | utils.js:32-36 | a line closes a table exactly when its trimmed text is exactly the table closer |
| Parser.OpenAndCloseExclusive | utils.js:26-36 | no line both opens and closes a table |
| Parser.CloserAfterSeparator | utils.js:20-36 | for a table opener, a bare row separator and a closer, the lines are classified opener, body, closer and the parser ends outside the table |
| Parser.CloserAfterRow | utils.js:20-36 | for a table opener, a bare row separator, a row and a closer, the lines are classified opener, body, body and the parser ends still inside the table |
| Parser.TableStateIsLastMarker | utils.js:21-36 | after n lines the in-table flag is set exactly when some line opened a table and no later line closed one |
| Parser.ScannedLineInsideTable | utils.js:26-38 | a scanned line is not an opening line and lies after an opening line with no closing line in between |
| Parser.ItemsInsideTables | utils.js:17-38 | every item comes from a line strictly inside a table of the stripped, normalised text |
| Parser.CollectedItemsAreMatches | utils.js:59-100 | soundness: every item is the templateIndex-th match of the scanned line lineNumber |
| Parser.CollectedLineItem | utils.js:59-100 | completeness: every match of every scanned line is collected, after the items of earlier lines |
| Parser.CollectedItemsOrdered | utils.js:66-100 | items come in strictly increasing (lineNumber, templateIndex) order; template indices on each line run 0, 1, 2, ... |
| Parser.LineItemAt | utils.js:90-100 | the i-th item of a line reports the i-th match, numbered from the line's first |
| Parser.BlockItem | utils.js:59-100 | an item of a line reports its line number, its template index and a numeric score |
| Parser.FlattenComplete | utils.js:90 | no item pushed is lost from the result |
| Parser.CommentedAnnotationsIgnored | utils.js:17 | an annotation inside a comment does not change the parse |
| Parser.ItemsRenderTheirTemplates | utils.js:72-98 | every item's originalTemplate is the template rebuilt from its status and score |
| Parser.ParseContributionPageWithDetails | utils.js:10-107 | the loop over the lines computes `Parse`; entryCount is the number of items |
| Parser.ScanLine | utils.js:59-101 | the `exec` loop appends the line's matches in order and adds each score to the total |
| Text.ParseDecimal | utils.js:82-84 | `parseFloat` of a digits-and-dots score: a number exactly when the text starts with a digit or with a dot and a digit, never negative, the decimal value for plain digits |
| Text.ParseDecimalFraction | utils.js:82-84 | `parseFloat` of whole digits, a dot and fraction digits is their decimal value, whatever a further dot and what follows it hold |
| Parser.AppendScore | utils.js:81-87 | the total grows by the value of each item's score |
| Parser.ParseContributionPage | utils.js:1-3 | the alias returns the same result |
| Rewriter.SmallCloseFrom | utils.js:134 | the remark's lazy `.*?</small>` stops at the first `</small>` with no line terminator before it |
| Rewriter.RemarkEnd | utils.js:134 | the remark group ends inside the line |
| Rewriter.RemarkShape | utils.js:134 | a non-empty remark starts with `<br` and ends with `</small>` |
| Rewriter.TemplateAt | utils.js:134 | a template matched at a position is well formed and ends with `}}` |
| Rewriter.MatchAt | utils.js:134 | a match at a position starts there and is well formed |
| Rewriter.FindMatch | utils.js:152 | `replace` visits the leftmost match at or after the last one's end |
| Rewriter.FindMatchLeftmost | utils.js:152 | nothing matches before the match found |
| Rewriter.MatchedTextParts | utils.js:134 | a matched text is the opener, the status, the score parameter, `}}` and the remark |
| Rewriter.RemoveFirstHash | utils.js:172 | one `#` is removed, the first, and nothing else changes in the multiset of characters |
| Rewriter.KeepingReplacement | utils.js:153-179 | with no update, or an update with nothing new, the match is reproduced verbatim |
| Rewriter.WrittenTemplateReadBack | utils.js:157-167 | a written template reads back with the status and score that were written |
| Rewriter.RewriteUnchanged | utils.js:152-180 | matches beyond the last update, and the text between matches, are left as they are |
| Rewriter.PairedByPosition | utils.js:146-153 | the k-th match is paired with the k-th update of the sorted group, whatever its template index |
| Rewriter.ReplaceOnLine | utils.js:151-180 | the replace callback with its match counter computes `RewriteLine` |
| Rewriter.InsertByIndex | utils.js:143 | inserting keeps all elements and adds one |
| Rewriter.SortByIndex | utils.js:143 | the sort keeps the length |
| Rewriter.SortByIndexSortedPermutation | utils.js:143 | the sorted group is ordered by templateIndex (missing counts as 0) and is a permutation of the group |
| Rewriter.SortByIndexStable | utils.js:143 | updates with equal keys keep their input order |
| Rewriter.GroupAppend | utils.js:123-130 | the group of a line in a concatenation is the concatenation of the groups |
| Rewriter.UnaddressedLine | utils.js:136-184 | a line no update addresses is left as it is |
| Rewriter.RewriteWithoutUpdates | utils.js:115-121 | with no updates the result is the rewriter's normalised lines joined by line breaks |
| Rewriter.NormalPageUnchanged | utils.js:115-185 | a page without continuation lines, run-together row separators or table closers run onto a line comes back unchanged when there are no updates |
| Rewriter.SeparatorCloserUnchanged | utils.js:115-121 | with no updates, a table opener, a bare row separator and a closer come back as written |
| Rewriter.RowCloserUnchanged | utils.js:115-121 | with no updates, a table opener, a bare row separator, a row and a closer come back as written |
| Rewriter.OpeningRowStaysJoined | utils.js:115-121 | with no updates, a row right after the table opener stays joined onto the opener (only the closer is cut back), so the page does not come back as written |
| Rewriter.OutOfRangeIgnored | utils.js:139 | updates whose line number is outside the page change nothing |
| Rewriter.GroupByLine | utils.js:123-130 | each line's group holds its updates in input order; every line with updates is listed once |
| Rewriter.AddToGroup | utils.js:125-129 | one turn of the grouping loop pushes the update onto its line's group |
| Rewriter.RewriteGroups | utils.js:136-184 | the loop over the groups rewrites each addressed line with its sorted group |
| Rewriter.UpdatePageContentWithTemplates | utils.js:113-186 | the method computes `Rewrite`: every line rewritten with its group, joined by line breaks |
| PageSplicers.AddItemBetweenNoinclude | utils.js:195-226 | the text is unchanged without an area between `</noinclude>` and `<noinclude>`, and grows otherwise |
| PageSplicers.AddItemSplice | utils.js:211-225 | the text through `</noinclude>` and from `<noinclude>` on is kept; the area gains a line break only when non-empty and lacking one, then the entry and a line break |
| PageSplicers.AddItemInserts | utils.js:214-225 | appending inserts exactly the break, entry and line break before the `<noinclude>` |
| PageSplicers.AddItemAreaFound | utils.js:195-226 | after appending an entry that holds no `<noinclude>` of its own, the same area is found again and holds the old area plus the entry |
| PageSplicers.AddItemTwice | utils.js:195-226 | two entries without a `<noinclude>` of their own, appended in turn, stand one after the other in the area |
| PageSplicers.MboxAt | utils.js:235 | a match of the mbox pattern at a position starts there with ordered groups |
| PageSplicers.ShapeMboxAt | utils.js:235 | wherever the text has the shape of the pattern, the matcher finds exactly those spans |
| PageSplicers.MboxAtShape | utils.js:235 | a match found has the shape of the pattern |
| PageSplicers.FindMbox | utils.js:237 | the match found lies at or after the search start |
| PageSplicers.FindMboxLeftmost | utils.js:237 | the match found is the leftmost |
| PageSplicers.UpdateUserPageContent | utils.js:232-242 | without an mbox the text is unchanged |
| PageSplicers.MboxSplice | utils.js:238 | only the two numbers of the first match are replaced; every other character is kept |
| PageSplicers.MboxReadBack | utils.js:232-242 | the updated text's first match is at the same place and captures the new count and score |
| PageSplicers.MboxLastWins | utils.js:232-242 | updating twice is updating once with the later numbers |
| Timestamp.LazyMatchAt | report.js:417 | a match of `open.*?close` at a position stops at the first `close` on the same line |
| Timestamp.LazyMatchAtIsMatch | report.js:417 | every match is the one the scanner finds at its start |
| Timestamp.FindLazyMatch | report.js:419 | `match` returns a match at or after the search start |
| Timestamp.FindLazyMatchLeftmost | report.js:419 | `match` returns the leftmost match |
| Timestamp.LazyMatchIndexIsStart | report.js:421-423 | `indexOf` of the matched text is the start of the match |
| Timestamp.NextLineStart | report.js:411 | just past the first line feed after the notice, and 0 when there is none |
| Timestamp.UpdateTimestamp | report.js:401-407 | without the update notice the text is unchanged |
| Timestamp.UpdateTimestampAt | report.js:409-429 | the update writes at the line after the notice |
| Timestamp.UpdateOver | report.js:421-425 | a timestamp line starting fewer than 100 UTF-16 code units after the next line's start is replaced in place |
| Timestamp.UpdateInserted | report.js:426-428 | otherwise the new line and a line break are inserted at the next line's start |
| Timestamp.Utf16Length | report.js:421 | the length `indexOf` counts lies between the character count and twice it |
| Timestamp.Utf16LengthNarrow | report.js:421 | text in the Basic Multilingual Plane counts one code unit per character |
| Timestamp.Utf16LengthWide | report.js:421 | characters outside that plane, such as the new-star mark, count two code units each |
| Timestamp.Utf16LengthAppend | report.js:421 | code units add up over a concatenation |
| Timestamp.WideTextLeavesWindow | report.js:421 | fifty wide characters before an old timestamp line put it outside the window, as `indexOf` counts them |
| Timestamp.InsertedStampFound | report.js:417-428 | an inserted timestamp line is the leftmost timestamp line found later |
| Timestamp.ReplacedStampFound | report.js:417-425 | a timestamp line written over the old one is found in its place |
| Timestamp.UpdateTimestampTwice | report.js:400-429 | updating twice is updating once with the later timestamp |
| Leaderboard.FindTable | report.js:434-481 | the section, the table opener after it, the table closer after that, the header anchor in the table and the row separator after it are found in that order |
| Leaderboard.ReplaceTableContent | report.js:432-499 | the text is unchanged when any anchor is missing; otherwise the body is replaced by the rows and a line break |
| Leaderboard.ReplaceTableSplice | report.js:484-498 | everything before the split point is kept, then the new rows and a line break, then everything from the table closer on |
| Leaderboard.ReplaceTableReadBack | report.js:432-499 | a later call finds the same table with the new rows as its body |
| Leaderboard.ReplaceTableTwice | report.js:432-499 | replacing twice is replacing once with the later rows |
| Leaderboard.GenerateRows | report.js:339-351 | the placeholder row is produced exactly for an empty list |
| Leaderboard.RowLines | report.js:341-351 | two lines per participant |
| Leaderboard.RowLineReads | report.js:341-350 | the row of the participant at index i shows rank i+1, and the newcomer mark exactly when marking is on and they are not a veteran |
| Leaderboard.UserDisplayMark | report.js:342-346 | the user cell starts with the mark exactly when marking is on and the participant is not a veteran |
| Leaderboard.GenerateRowsLines | report.js:339-351 | the rows split into a row separator and the row of each participant in list order, ranked from 1, marked as above |
| Usernames.NamespaceEnd | report.js:281 | the namespace alternatives tried in order, case ignored, with the `:` after them |
| Usernames.NamespaceUnique | report.js:281 | at most one alternative fits at a position, so the order of alternatives does not matter |
| Usernames.LinkAt | report.js:281 | a link matched at a position has the pattern's parts in order |
| Usernames.LinkAtExact | report.js:281 | a link matches at a position exactly when the text there has the pattern's shape with a maximal name |
| Usernames.FindLink | report.js:285 | `exec` finds the leftmost link from `lastIndex` |
| Usernames.CapturesAreNames | report.js:281-286 | every captured name is a non-empty run of characters other than closing bracket, pipe, hash and less-than |
| Usernames.NameSetClean | report.js:286-289 | every name kept is non-empty, trimmed and free of closing bracket, pipe, hash and less-than |
| Usernames.InsertSorted | report.js:292 | inserting into a sorted duplicate-free list keeps it sorted |
| Usernames.SortNamesSorted | report.js:292 | the sorted names are strictly ascending |
| Usernames.SortNamesLength | report.js:292 | sorting duplicate-free names keeps their number |
| Usernames.ExtractUsernames | report.js:280-293 | the result is strictly sorted, and holds exactly the trimmed non-empty captures of all links, each clean |
| Usernames.ChunkUsernames | report.js:182-190 | the batches concatenate to the list; one batch when there are at most 50 names, otherwise ceil(n/50) batches; all batches but the last hold exactly 50 |
| EditBuckets.BucketOfRanges | report.js:239-255 | a count is in range k exactly when the chain of tests picks k; negative counts are in none; the ranges do not overlap |
| EditBuckets.BucketNamesDistinct | report.js:230-237 | the range names are distinct keys |
| EditBuckets.BucketsPartition | report.js:239-255 | the range counts add up to the number of present non-negative edit counts |
| EditBuckets.CountEditBuckets | report.js:229-255 | the table has the six range names as keys, each mapped to how many edit counts fall into that range |

## Left out

- OAuth, the bot's page reads and writes, and the Express review server. These are network and I/O.
- Timestamp formatting. `updateTimestamp` takes the timestamp text as a parameter, because formatting
  it depends on the clock. The registration-year statistics are left out for the same reason.
- Floating point:
  - `parseFloat` of a digits-and-dots score is modelled as an exact `real` (`Parser.ScoreValue`).
  - `formatScore` and the float comparator of the report's ranking are not modelled.
  - A participant's `totalScore` is the text the row shows.
- `absolutePosition` and `relativePosition` of parsed items are not modelled. They mix line and
  document offsets and use first-occurrence `indexOf`.
- Usernames.Less: compares names by Unicode code point. JavaScript's default `sort` compares UTF-16
  code units, which differs only for characters outside the Basic Multilingual Plane.
- A user without an `editcount` is an absent edit count, which `EditBuckets.BucketOf` counts nowhere,
  as the comparisons with `undefined` do.
- The grouping of participants by registration year, `generateGithubSummary`, the page-move bot, the
  import-log scoring and the configuration are not part of this model.
