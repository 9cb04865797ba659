# NeetCode 150 progress tracker — a Dafny model of its in-memory logic

The tracker is a single-page browser app (`app.js`). It loads a dataset of
problems grouped by topic, lets the user tick problems as done, keeps a
"glory points" counter (Easy 10, Medium 20, Hard 30), shows a topics view
with per-topic progress bars, a filterable and sortable table of all
problems and a stats view, and can export and import progress.

This project models the logic underneath, separated from the DOM, storage and
network calls around it:

- `problems.dfy` (`Problems`): the dataset records, the points table, the
  difficulty rank table and named filter conditions.
- `progress.dfy` (`Progress`): the progress state — a set of done ids plus a
  point counter — and its transitions: toggling a checkbox, reset, importing a
  decoded progress document and exporting one. The counter is updated
  incrementally in the source, so the model proves that it stays equal to the
  value of the done problems across every run of toggles from a reset, given
  unique ids.
- `dataset.dfy` (`Dataset`): `normalize` (flattening `[{topic, items}]` into
  the problem list and the topic list) and `groupBy` (grouping by topic in
  order of first occurrence).
- `table.dfy` (`Table`): the all-problems table — the filter controls applied
  in sequence, the sort control parsed by `split('-')`, the three comparators
  as written (JavaScript `||` on numbers and NaN for an unknown difficulty
  included), and a stable sort over them.
- `stats.dfy` (`Stats`): the done/total projections per topic group, per
  difficulty, per listed topic and overall, and the rounded percentage.
- `strings.dfy` (`Strings`) and `seqs.dfy` (`Seqs`): the JavaScript string and
  array operations the above rely on (`trim`, `toLowerCase`, `includes`,
  `split`, `<` on strings, `filter`).

`toggleDone` calls `saveProgress` (app.js:310) even when the click asks for
the state the problem is already in. Persistence is outside the model; the
state itself is unchanged in that case (`Progress.Toggle`).

Three observations came out of the proofs. Neither is a defect of the code on
its own dataset, so neither is listed as a finding.
- The counter invariant needs unique problem ids. `Progress.DuplicateIdsDrift`
  shows two rows that share an id but not a difficulty: checking one and
  unchecking the other leaves nothing done and ten points.
- Import does not reconcile the two fields. `Progress.ImportCanBreakConsistency`
  shows a document with a `done` array and no `points` leaving the counter
  out of step.
- A full topic bar does not mean a finished topic. `Stats.FullBarBeforeDone`
  shows 199 of 200 rounding to 100%; topics of the shipped dataset are far
  smaller than that.

## Model

| member | source | states |
|---|---|---|
| Problems.PointValue | app.js:4 | A difficulty is worth points exactly when it is Easy, Medium or Hard; a value is a multiple of ten and at most 30 |
| Problems.Rank | app.js:239 | A known difficulty's sort rank lies between 1 and 3 |
| Problems.PointsFollowRank | app.js:4 | The points table and the sort-rank table agree: a known difficulty is worth ten points per rank step |
| Progress.Toggle | app.js:300-309 | Checking adds the id and unchecking removes it; the points move by the problem's value (0 for an unknown difficulty) times the change in the number of done ids; asking for the state the problem is already in changes nothing |
| Progress.Cleared | app.js:370-371 | The state the reset handler leaves behind; Progress.ClearedConsistent states it satisfies the counter invariant for every catalogue |
| Progress.Run | app.js:300-313 | A run of checkbox changes (each a `toggleDone` call) applied in order; only ids of clicked problems enter or leave the done set |
| Progress.ToggleIdempotent | app.js:301-309 | Toggling twice to the same checked state equals toggling once, so points are never counted twice |
| Progress.CheckThenUncheck | app.js:300-309 | Checking an undone problem and then unchecking it restores the done set and the points exactly |
| Progress.UncheckThenCheck | app.js:300-309 | Unchecking a done problem and then checking it restores the state exactly |
| Progress.DonePoints | app.js:4 | The recomputed value of the done problems is at most 30 per problem, and 0 when none is done |
| Progress.DonePointsAgree | app.js:300-309 | The recomputed points depend only on which catalogue ids are done |
| Progress.DonePointsAdd | app.js:302-304 | With unique ids, marking one more catalogue problem done adds exactly its value to the recomputed points |
| Progress.ToggleKeepsConsistent | app.js:300-309 | With unique ids, a toggle keeps the counter equal to the value of the done problems and the done set within the catalogue |
| Progress.ClearedConsistent | app.js:370-371 | The reset state (no ids, 0 points) is consistent with every catalogue |
| Progress.RunKeepsConsistent | app.js:300-309 | Any sequence of toggles on catalogue problems with unique ids preserves the counter invariant |
| Progress.RunFromResetConsistent | app.js:370-371 | From the reset state, any sequence of toggles keeps the points equal to the sum of the values of the done problems |
| Progress.DuplicateIdsDrift | app.js:300-309 | Without unique ids the invariant fails: two rows sharing an id can leave no id done and ten points |
| Progress.Import | app.js:327-335 | An unparsable or null document changes nothing; otherwise the done set is replaced only by an array's elements and the points only by a number, each independently of the other |
| Progress.Export | app.js:315-319 | The exported list holds every done id exactly once and nothing else, and the exported points equal the counter |
| Progress.ExportImportRoundTrip | app.js:315-335 | Importing an export restores the exported state, whatever state it is imported into |
| Progress.ImportKeepsPointsOnText | app.js:330-335 | A document with a `done` array and non-numeric points replaces the done set and keeps the points |
| Progress.ImportCanBreakConsistency | app.js:327-335 | Import does no reconciliation: a `done` array without points leaves the counter disagreeing with the done problems |
| Dataset.TagAll | app.js:117-123 | One problem per item, in item order: taking the topic off problem j gives item j back, and every problem carries the section's topic |
| Dataset.Flatten | app.js:116-124 | The flat list has one problem per item of all sections, and every problem is an item of some section and carries that section's topic |
| Dataset.Normalize | app.js:115-126 | The problem list's length is the total item count; the topic list has one entry per section, equal to the sections' topics in order; the two outputs agree, every problem's topic being on the topic list |
| Dataset.FlattenAppend | app.js:116-124 | Flattening keeps section order: flattening two runs of sections is concatenating their flattenings |
| Dataset.FlattenIndex | app.js:116-124 | Item j of section i sits at position (items in sections before i) + j of the flat list, tagged with section i's topic |
| Dataset.FindGroup | app.js:412 | The lookup of a topic's group finds a group with that topic, and reports none exactly when no group has it |
| Dataset.AddToGroups | app.js:412 | One step of the `reduce`: append to the topic's group or open a new one; AddKeepsItems, AddKeepsCover, AddKeepsDistinct and AddKeepsOrder state what it preserves |
| Dataset.GroupBy | app.js:411-413 | `groupBy` over the problem list, never more groups than problems; GroupByCorrect characterises it |
| Dataset.GroupByCorrect | app.js:411-413 | `groupBy` yields one group per topic that occurs, no topic twice, each group holding exactly the problems of its topic in list order, with groups ordered by first occurrence |
| Dataset.FirstIndex | app.js:412 | The first position of a topic in the list, or the list's length if it does not occur |
| Dataset.FirstIndexAppend | app.js:412 | Appending a problem moves no topic's first position; a topic first seen in the appended problem first occurs there |
| Dataset.AddKeepsOrder | app.js:412 | Adding a problem keeps groups ordered by first occurrence; a new topic's group comes last |
| Dataset.AddKeepsItems | app.js:412 | Adding a problem keeps every group equal to the problems of its topic |
| Dataset.AddKeepsCover | app.js:412 | Adding a problem keeps every topic that occurs covered by a group |
| Dataset.AddKeepsDistinct | app.js:412 | Adding a problem never creates a second group for a topic |
| Stats.Percent | app.js:160 | The bar percentage is between 0 and 100; it is 0 for an empty topic or nothing done and 100 when all are done; it is the nearest whole percentage to done/total, halves rounded up |
| Stats.TallyOf | app.js:136 | The done count of a group never exceeds its size |
| Stats.GroupRow | app.js:136-160 | An accordion row carries its group's topic and size, a done count within it, and a percentage of at most 100 that is 100 when all are done and 0 when none is |
| Stats.FullBarBeforeDone | app.js:160 | The rounded bar reads 100% at 199 of 200 done and 1% at 1 of 200 |
| Stats.Overall | app.js:277-281 | The overall count's done part never exceeds the number of problems; OverallFullIffAllDone states when it is full |
| Stats.TopicsView | app.js:134-160 | The topics view has one row per topic group |
| Stats.TopicsViewAddsUp | app.js:134-136 | The accordions' done and total counts sum to the overall done count and the number of problems |
| Stats.AddToGroupsTallies | app.js:134-136 | Adding a problem to the groups adds one to the summed totals, and one to the summed done counts exactly when the problem is done |
| Stats.OverallFullIffAllDone | app.js:277-281 | The overall count is full exactly when every problem is done |
| Stats.DifficultyTallies | app.js:283-289 | The difficulty breakdown has one line each for Easy, Medium and Hard, none counting more done than total |
| Stats.TopicTallies | app.js:291-296 | The topic breakdown has one line per listed topic, none counting more done than total |
| Stats.BreakdownTally | app.js:286-294 | A breakdown line's count of done problems in a class equals the done count of that class's problems |
| Stats.TopicStatsMatchTopicsView | app.js:134-136 | For every topic group, the stats view's topic line and the topics view's accordion show the same counts |
| Stats.DifficultiesAddUp | app.js:283-289 | When every difficulty is Easy, Medium or Hard, the difficulty lines add up to the overall count |
| Stats.DifficultyCountsAddUp | app.js:285-287 | When every difficulty is known, the per-difficulty totals sum to the list size and the per-difficulty done counts to the overall done count |
| Stats.ToggleMovesOverall | app.js:277 | With unique ids, a toggle moves the overall done count by exactly the change in the number of done ids |
| Stats.DoneCountAdd | app.js:277 | With unique ids, marking one more listed problem done adds one to the overall done count |
| Stats.SingleProblemScenario | app.js:134-160 | One Easy problem: checking it gives ten points and a full accordion at 100%, and unchecking it gives the reset state back |
| Table.ApplyFilters | app.js:229-235 | The sequential filters keep exactly the rows satisfying every active control, in list order |
| Table.SearchTerm | app.js:223 | The search term has no white space at either end and no upper-case letter |
| Table.Matches | app.js:231-235 | The conjunction of the active controls; ApplyFilters and ViewCorrect state that the table keeps exactly the rows satisfying it |
| Table.Narrow | app.js:231-235 | An optional filter stage on top of a filter is one filter by the conjunction, and an inactive stage is no constraint |
| Table.FiltersCompose | app.js:229-235 | The five filter stages together are one filter by the conjunction of the active controls |
| Table.EmptyControlsKeepAll | app.js:223-235 | With every control empty (a white-space-only search included) the table keeps every problem |
| Table.SearchIgnoresCase | app.js:223 | The search term does not depend on the case of the query |
| Table.ParseSortValue | app.js:227-237 | Every sort value the select offers parses back to the key and direction it names |
| Table.ParseSort | app.js:227-237 | Reads the sort select into a key and a direction; ParseSortValue, DefaultSort and NoDirection characterise it |
| Table.NoDirection | app.js:237-244 | A sort value without a dash sorts titles ascending, by the default direction of `by` (app.js:19), and topics and difficulties descending, since an undefined direction is not asc |
| Table.NoDirectionExamples | app.js:237-244 | `title` parses to title ascending, `topic` to topic descending, `difficulty` to difficulty descending |
| Table.DefaultSort | app.js:227 | An empty sort value sorts by title ascending |
| Table.SplitNoSeparator | app.js:237 | Splitting a string without a dash gives that string alone |
| Table.SplitPair | app.js:237 | Splitting `a-b` with no dash in `a` or `b` gives `a` and `b` |
| Table.CompareMeaning | app.js:19-20 | Each comparator agrees with the stated order: a non-positive result means the first row may come first, a negative one that the second may not come first |
| Table.Compare | app.js:240-244 | The three comparators as written, `by` (app.js:19-20) included; CompareMeaning ties their sign to the Before order |
| Table.TitleDescReverses | app.js:19-20 | The descending title comparator is the ascending one negated |
| Table.DescNegatesPrimaryOnly | app.js:240-242 | For the topic and difficulty orders, descending flips only the primary key; ties fall back to ascending title either way |
| Table.BeforeTransitive | app.js:237-245 | The table order is transitive (on rows with known difficulty for the difficulty order) |
| Table.BeforeTotal | app.js:237-245 | Any two rows are comparable in the table order |
| Table.Insert | app.js:237-245 | Inserting a row adds exactly that row |
| Table.Sort | app.js:237-245 | Sorting is a permutation of the rows |
| Table.InsertSorted | app.js:237-245 | Inserting into a sorted list keeps it sorted |
| Table.SortSorted | app.js:237-245 | The sorted rows are in the chosen order |
| Table.ViewCorrect | app.js:229-245 | For every control setting, the table shows exactly the problems satisfying every active control, each as often as in the problem list; on rows the chosen order can rank it is in that order |
| Table.View | app.js:229-245 | The table body: filtered rows, stably sorted; ViewCorrect characterises it |
| Table.UniqueIdsOnce | app.js:229-235 | A problem list without repeated ids holds each problem once, so every table row is shown at most once |
| Strings.TrimStart | app.js:223 | Leading white space is removed, and only white space |
| Strings.TrimEnd | app.js:223 | Trailing white space is removed, and only white space |
| Strings.Trim | app.js:223 | `trim` gives a slice of its input with only white space around it, starting and ending with a non-space |
| Strings.Lower | app.js:223 | Lower-casing keeps the length, leaves no upper-case letter, and returns a string without upper-case letters unchanged |
| Strings.LowerTrim | app.js:223 | Trimming and lower-casing commute, and lower-casing is idempotent |
| Strings.Includes | app.js:231 | `includes` holds exactly when the needle occurs at some position of the haystack |
| Strings.LexIrreflexive | app.js:19-20 | No string is before itself |
| Strings.LexLess | app.js:20 | JavaScript `<` on strings; LexIrreflexive, LexTransitive, LexTotal and LexAsymmetric make it a strict total order |
| Strings.LexTransitive | app.js:19-20 | The string order is transitive |
| Strings.LexTotal | app.js:19-20 | Any two distinct strings are ordered one way or the other |
| Strings.LexAsymmetric | app.js:19-20 | No two strings are each before the other |
| Strings.Compare | app.js:240-242 | The three-way comparison is zero exactly on equal strings, negative exactly when the first is before the second, and positive in the reverse case |
| Strings.Split | app.js:237 | Splitting gives at least one piece, exactly one when the separator does not occur, and no piece contains the separator; with JoinSplit this pins the pieces down |
| Strings.JoinSplit | app.js:237 | Splitting loses nothing: joining the pieces with the separator gives the string back |
| Seqs.Filter | app.js:231-235 | Filtering never lengthens, and keeps exactly the elements satisfying the condition |
| Seqs.FilterMultiset | app.js:231-235 | A kept element occurs as often as in the input, and a dropped one not at all |
| Seqs.FilterAppend | app.js:231-235 | Filtering distributes over concatenation |
| Seqs.FilterTwice | app.js:231-235 | Two filters in a row are one filter by the conjunction |
| Seqs.FilterKeepsAll | app.js:231-235 | A filter that every element passes changes nothing |

## Left out

- Storage: reading progress from `localStorage` at start-up (app.js:13-14) and `saveProgress` (app.js:22-28). This is I/O. State is passed in and returned instead. Line 13 throws on corrupt stored JSON, and line 14 can yield NaN; neither is modelled.
- Loading: `fetch`, `loadData` and the fallback sample dataset (app.js:83-113). This is network I/O; `Dataset.Normalize` takes the decoded sections.
- Animation: the confetti loader and `fireConfetti` (app.js:32-79). This is script injection and an external library; a toggle does not model the call.
- Presentation: DOM construction, tabs, event binding, `alert`, `confirm`, `innerHTML` templates and the once-only population of the topic select (app.js:129-221, 247-272, 344-400). The reset handler is modelled only after its confirmation (`Progress.Cleared`).
- JSON text: parsing, serialisation and the shape sniffing that decides between a dataset and a progress file (app.js:315-325, 389-395). `Progress.Import` takes an already decoded document, and `Progress.Export` returns the document before serialisation. `replaceDataset` is `normalize` plus re-rendering.
- Progress.Import: array elements are strings, and a numeric `points` is an integer. Non-string ids, fractional points, NaN and Infinity are not modelled.
- Progress.Export: returns the done ids in an unspecified order. `[...doneSet]` lists them in insertion order, and the model does not track insertion order.
- Stats.Percent: rounds the exact ratio half up. `Math.round` works on a floating-point quotient, which can differ at exact halves.
- Stats.Overall: the overall bar width (app.js:280) is a floating-point percentage and is left out. The `done/total` count is modelled.
- Dataset.GroupByCorrect: groups are ordered by first occurrence. A JavaScript object lists integer-like keys such as `"10"` first in numeric order, and that exception is not modelled. Keys inherited from `Object.prototype` (a topic named `constructor`) are also not modelled.
- Problems.PointValue: only Easy, Medium and Hard have points. A difficulty naming an `Object.prototype` member is not modelled. The `+N` badges (app.js:202, 268) print `undefined` for an unknown difficulty; that is presentation.
- Strings.Lower: maps the ASCII letters only. JavaScript's full Unicode `toLowerCase` is not modelled.
- Strings.Compare: stands for both `localeCompare` and `<`, as code-unit lexicographic order. Locale collation and UTF-16 surrogate pairs are not modelled.
- Table.Compare: `localeCompare` results are taken as -1, 0 or 1. Only their sign matters to `||` and to the sort.
- Table.SortSorted: for the difficulty order, sortedness is proved only when every row has a known difficulty; Table.ViewCorrect states sortedness under the same condition. With an unknown one the comparator (NaN falling back to title) is not a consistent order. Stability of `Array.prototype.sort` is modelled by a stable insertion sort, but no lemma states it.
