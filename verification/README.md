# Draft ranking and fair allocation, modelled in Dafny

This project models the core of a small browser toolkit for a fighting
league. Four pieces make up that core:

- **The draft simulator (`draft.js`).**
  - It reads the stored fighters and splits them into a draftable pool and the existing team rosters.
  - It ranks the pool by a pairwise power score, with a chain of tie-breaks.
  - It orders the teams by size.
  - It hands the ranked fighters out with a bucketed round robin, either in one go (`runDraft`) or live, as a stream of events (`runDraftLive`).
  - The page also has a few pacing helpers: the seconds per pick, the start delay, and the duration estimate.
- **The countdown timer (`timer.js`).** It holds the `MM:SS.CS` formatter and the timer's duration, end time and running state.
- **The sortable table helper (`table.js`).** It covers the numeral test, the key coercion, the comparator, and the ascending or descending order of rows.
- **The local-storage wrapper (`localstorage.js`).** It prefixes keys and supports an expiry time.

Everything is written as pure functions over immutable data. Some of the source reads the clock or the DOM. In the model, the clock is a parameter `now`, and calls into the browser are parameters or are left out. The live draft becomes the sequence of events it emits.

Modules, one per file:

| module | file | what it holds |
|---|---|---|
| `Wrappers` | wrappers.dfy | `Option` |
| `Seqs` | seqs.dfy | small sequence facts used by the proofs |
| `Text` | text.dfy | `trim` on ECMAScript whitespace, ASCII `toLowerCase`, ordinal string order |
| `Decimal` | decimal.dfy | how a non-negative integer is printed, and a digit scanner to read it back |
| `Fighters` | fighters.dfy | the fighter record, `safeNum`, `getFighters`, `classifyFighters` |
| `Ranking` | ranking.dfy | `statProbBetween`, `smoothedRecordRate`, `totalStats`, the power table, `rankByStatPower` |
| `Sizes` | sizes.dfy | the `sizes` vector of the draft loop: minimum, maximum, the bucket at the minimum |
| `Allocation` | allocation.dfy | `sortTeamsBySize`, the reference allocation rule, and `runDraft`'s loop as written |
| `Live` | live.dfy | `runDraftLive`'s loop as an event trace |
| `Draft` | draft.dfy | `runDraft` and `runDraftLive` end to end |
| `Pacing` | pacing.dfy | the seconds-per-pick clamp, the start delay, `humanDuration` |
| `Timer` | timer.dfy | `pad2`, `clamp`, `formatTime`, the timer state |
| `Table` | table.dfy | `NUM_RE`, `coerce`, `compare`, the row order after a header click |
| `Store` | store.dfy | `k`, `setJSON`, `getJSON`, `remove` over a map |

**The reference allocation.** The central design choice is a simple rule, `Allocation.Allocate`. Under this rule, each ranked fighter in turn goes to the first team, in draft order, whose current size is the smallest. The bucketed loops of `runDraft` (`Allocation.DraftLoop`) and `runDraftLive` (`Live.LiveLoop`) are proved to compute exactly this rule. The fairness and completeness properties are then proved once, about the rule.

## Model

| member | source | states |
|---|---|---|
| Fighters.SafeNum | draft.js:27 | a missing or non-numeric field counts as 0; any other value is kept |
| Fighters.GetFighters | draft.js:4-7 | a stored array is read as is; anything else, including nothing stored, reads as no fighters |
| Fighters.PoolOf | draft.js:15-18 | the reference pool: a fighter is in it exactly when it is in the input and is a free agent or custom |
| Fighters.MembersOf | draft.js:19-21 | the reference roster of a team: exactly the input fighters outside the pool whose trimmed team is that name |
| Fighters.TeamNamesOf | draft.js:20 | the team names in order of first appearance are pairwise distinct |
| Fighters.Join | draft.js:20-21 | appending to a team's list: that list alone grows by the fighter; an unknown team opens a new list at the end, as a `Map` keeps insertion order |
| Fighters.Classify | draft.js:9-25 | the pool equals the filtered input in order; the team names are those of first appearance; each team's list is exactly its fighters, in input order |
| Fighters.JoinAddsOne | draft.js:20-21 | adding a fighter to the rosters adds exactly that fighter to their contents |
| Fighters.ClassifyPartition | draft.js:12-23 | pool and rosters together hold every input fighter exactly as often as the input does |
| Fighters.ClassifyRoutes | draft.js:13-22 | a pool fighter is in the pool and in no roster; any other fighter is in the roster named by its trimmed team, in no other, and not in the pool |
| Fighters.MembersOfAbsent | draft.js:19-21 | a name no fighter outside the pool is grouped under has no roster members |
| Fighters.TeamNamesCover | draft.js:19-21 | every non-pool fighter's trimmed team is among the team names |
| Fighters.FreeAgentMarker | draft.js:13-15 | the team "  Fa " is a free-agent marker: surrounding spaces and letter case do not matter |
| Fighters.CustomMarker | draft.js:13-16 | the team "\tCUSTOM" marks a custom fighter |
| Fighters.PaddingIgnored | draft.js:13-17 | whitespace around a team name changes neither where the fighter goes nor the name it is grouped under |
| Text.Trim | draft.js:13 | the result neither starts nor ends with whitespace and is no longer than the input |
| Text.TrimIsSlice | draft.js:13 | the trimmed text is a contiguous slice of the input |
| Text.TrimEmpty | table.js:8-9 | trimming gives "" exactly when the text is all whitespace |
| Text.TrimPadded | draft.js:13 | surrounding text with whitespace does not change its trim |
| Text.TrimIdempotent | table.js:44 | trimming twice is trimming once |
| Text.ToLower | draft.js:14 | same length; each character is lower-cased on its own |
| Text.ToLowerSpec | draft.js:14 | lower-casing leaves no upper-case letter, changes nothing else, and is idempotent |
| Text.StrLessTotal | draft.js:66 | distinct names are ordered one way or the other |
| Text.StrLessTransitive | table.js:21 | the string order is transitive |
| Text.StrLessAsymmetric | table.js:21 | the string order never holds both ways |
| Text.StrLessIrreflexive | draft.js:66 | no name sorts before itself |
| Ranking.RatioSumComplement | draft.js:32-36 | the stats that qualify are the same for A against B as for B against A, and the two sums of ratios add up to their count |
| Ranking.RatioSumBounds | draft.js:32-37 | with non-negative stats each qualifying stat adds between 0 and 1 |
| Ranking.StatProbComplement | draft.js:29-39 | the chance of A beating B and that of B beating A add up to exactly 1 |
| Ranking.StatProbEven | draft.js:35-37 | when no stat has a positive pairwise sum the chance is exactly 0.5 |
| Ranking.StatProbBounds | draft.js:29-39 | with non-negative stats the chance lies in [0, 1] |
| Ranking.RecordRate | draft.js:41-44 | the smoothed record rate lies strictly between 0 and 1, and is exactly 0.5 with no games |
| Ranking.PowerBounds | draft.js:54-58 | with non-negative stats every power score lies in [0, 1] |
| Ranking.RowSumBounds | draft.js:54-57 | a fighter's summed win chances lie between 0 and the number of opponents counted |
| Ranking.PowerTableLookup | draft.js:53-58 | with unique IDs the table holds each fighter's own mean win chance against the rest |
| Ranking.AheadTotal | draft.js:59-67 | the tie-break chain is a strict total order: distinct keys are ordered one way, never both |
| Ranking.AheadTransitive | draft.js:59-67 | the tie-break chain is transitive |
| Ranking.AheadIrreflexive | draft.js:59-67 | no key ranks ahead of itself |
| Ranking.Insert | draft.js:59-67 | inserting into a ranked sequence adds exactly the fighter and keeps it ranked |
| Ranking.Sort | draft.js:59-67 | the result is a permutation of the input in which no fighter ranks ahead of an earlier one |
| Ranking.RankByStatPower | draft.js:50-68 | a pool of at most one is returned unchanged; otherwise the result is a permutation of the pool, ordered by the power table; fighters tied on all four keys keep their pool order |
| Ranking.InsertTies | draft.js:59-67 | inserting keeps the fighters of every key in order and places the new fighter after those of its own key |
| Ranking.SortStable | draft.js:59-67 | the sort is stable: fighters tied on all four keys keep their input order |
| Ranking.RankOrder | draft.js:59-67 | with unique IDs, an earlier fighter has at least the later one's power; on equal power, at least its record rate; then at least its stat total; then a name not after it |
| Ranking.ExampleStatProb | draft.js:29-39 | strength 80 against 20 with the other stats tied gives 0.575 one way and 0.425 the other |
| Ranking.ExamplePowers | draft.js:53-58 | in that pair the weaker fighter's power is 0.425 and the stronger's 0.575 |
| Ranking.ExamplePowerTable | draft.js:53-58 | the power table of that pair |
| Ranking.ExampleRank | draft.js:50-67 | that pair, given weaker first, is ranked stronger first |
| Allocation.InsertBySize | draft.js:71 | inserting a roster keeps the order ascending by size and adds exactly that roster |
| Allocation.SortBySize | draft.js:70-72 | the result is a permutation of the rosters, ascending by size |
| Allocation.SortBySizeStable | draft.js:71 | rosters of equal size keep their relative order |
| Allocation.InsertBySizeStable | draft.js:71 | inserting a roster keeps the rosters of each size in their order, the new one after those of its size |
| Allocation.Slots | draft.js:79 | one slot per roster, same name and members, no picks yet |
| Allocation.SizesOf | draft.js:86 | each slot's size is its members plus its picks |
| Allocation.FirstMin | draft.js:86-92 | the slot receiving the next pick has the smallest size, and every slot before it is strictly larger |
| Allocation.Give | draft.js:92 | a pick grows one slot by one and no other slot |
| Allocation.GiveAddsOne | draft.js:92 | a pick adds exactly that fighter to the drafted fighters |
| Allocation.Allocate | draft.js:84-94 | names and pre-draft members never change |
| Allocation.TargetsAt | draft.js:84-94 | pick k goes to the first slot of minimum size after the first k picks |
| Allocation.AllocateFair | draft.js:86-92 | every pick goes to a slot whose size is the minimum at that moment |
| Allocation.AllocatePicks | draft.js:84-94 | each slot's picks are exactly the ranked fighters sent to it, in rank order |
| Allocation.AllocateExactlyOnce | draft.js:84-94 | the picks grow by exactly the ranked fighters, so the total grows by the pool size |
| Allocation.GiveAtMinimum | draft.js:86-92 | one pick at the minimum never lowers the minimum, and never widens the max-min spread beyond the larger of its old value and one |
| Allocation.AllocateMonotone | draft.js:84-94 | over a run the minimum size never falls, and the spread never exceeds the larger of its initial value and one |
| Allocation.AllocateStaysFair | draft.js:84-94 | between any two moments the minimum does not fall, and a spread of at most one stays at most one |
| Allocation.AllocateAppend | draft.js:84-94 | allocating a + b is allocating a, then b from there |
| Allocation.CatchUp | draft.js:86-93 | with two teams, the first, while not larger, takes every pick, ties included |
| Allocation.ExampleZeroThree | draft.js:84-94 | sizes 0 and 3 with four fighters: the first team takes all four |
| Allocation.BucketStep | draft.js:90-93 | one pick of the inner loop is one step of the reference rule |
| Allocation.ServeBucket | draft.js:86-93 | one pass of the outer loop hands out at least one fighter, each as the reference rule would |
| Allocation.DraftLoop | draft.js:82-94 | the bucketed loop terminates and computes the reference allocation |
| Allocation.RunBuckets | draft.js:80-95 | with no teams the order is returned untouched; otherwise the result is the reference allocation |
| Sizes.FirstMinOf | draft.js:86-89 | the first position of the smallest size |
| Sizes.MinOf | draft.js:87 | no size is below the minimum |
| Sizes.Bucket | draft.js:89 | the bucket holds exactly the positions at the given size, ascending |
| Sizes.BucketNonEmpty | draft.js:87-89 | the bucket of the minimum is never empty, so each pass makes progress |
| Sizes.BumpMin | draft.js:92 | a pick at the minimum raises the minimum by at most one and never lowers it |
| Sizes.BumpMax | draft.js:92 | a pick at the minimum keeps the maximum, unless all sizes were equal |
| Sizes.BucketHeadIsFirstMin | draft.js:89-93 | inside a pass, the next bucket member is the first slot of minimum size, and the minimum has not moved |
| Sizes.ServedNext | draft.js:90-93 | serving the next bucket member keeps the sizes in the served shape |
| Live.PickEventsAt | draft.js:106-119 | pick j sits at a fixed position with number j + 1, its slot, the j-th ranked fighter and the count after it; a pause follows each pick exactly when the delay is positive |
| Live.LiveEventAt | draft.js:114-117 | pick j of the live draft carries number j + 1, the j-th ranked fighter, and remaining + j + 1 equal to the pool size |
| Live.TeamPicksOfEvents | draft.js:113-116 | the fighters the events hand to a slot are the ranked fighters targeted at it, in order |
| Live.LiveMatchesBatch | draft.js:106-121 | the live events give every slot the same picks as the batch draft |
| Live.TargetsAppend | draft.js:108-120 | the later fighters are targeted as if the draft started from the allocation of the earlier ones |
| Live.BucketTargets | draft.js:109-113 | within one pass the targets are the bucket members in draft order |
| Live.EventsNext | draft.js:116-118 | one more pick adds its event, then a pause when the delay is positive |
| Live.ServeLive | draft.js:109-119 | one pass of the live loop advances the allocation, the targets and the events together |
| Live.LiveBucket | draft.js:107-119 | one pass of the live loop hands out at least one fighter and keeps the allocation, the targets and the events equal to the reference ones |
| Live.LivePick | draft.js:113-118 | one pick of the live loop emits its event and follows the reference rule |
| Live.LiveLoop | draft.js:106-120 | the live loop terminates with the reference allocation and the events of every pick |
| Draft.RunDraft | draft.js:74-96 | the ranked pool is a permutation of the pool; with teams the order is the reference allocation; with no pool nobody picks |
| Draft.DraftCompleteness | draft.js:74-95 | when some fighter is on a team there is a team to draft for, and the drafted fighters are exactly the pool, each picked once |
| Draft.RunDraftLive | draft.js:98-122 | the initial event comes first even with nothing to draft; with no pool the initial order is returned unchanged; otherwise the pick events follow, each pause lasting the given (possibly fractional) number of milliseconds, and the final order is the batch draft's |
| Draft.LiveTrace | draft.js:98-121 | when some fighter is on a team, every ranked fighter has its pick event, numbered from 1 in rank order with remaining counting down to 0, and every team ends with its batch-draft picks |
| Pacing.PickSeconds | draft.js:191 | the seconds per pick lie in [1, 3600]; an invalid or zero input gives 10; anything else is clamped |
| Pacing.IntervalMs | draft.js:191-192 | the interval is the seconds per pick in milliseconds |
| Pacing.StartDelay | draft.js:195-200 | no start time, or one in the past, gives no delay; a future start is waited for until exactly that time |
| Pacing.CountdownOnlyForFutureStart | draft.js:195-207 | the start countdown runs exactly when a start time lies in the future |
| Pacing.HumanDuration | draft.js:147-157 | the text ends in the seconds field |
| Pacing.DurationShape | draft.js:149-156 | hours are shown when there are any; minutes when there are any or there are hours; seconds always |
| Pacing.HumanDurationRoundTrip | draft.js:147-157 | reading the text back gives the whole seconds it was made from |
| Pacing.HumanDurationInjective | draft.js:147-157 | two estimates print alike exactly when their whole seconds agree |
| Pacing.ExampleHours | draft.js:147-157 | 3725.9 seconds print as "1h 2m 5s" |
| Pacing.ExampleMinute | draft.js:147-157 | 60 seconds print as "1m 0s" |
| Pacing.ExampleNegative | draft.js:148 | a negative duration prints as "0s" |
| Pacing.Estimate | draft.js:159-165 | the estimate reads back as the whole seconds of seconds-per-pick times picks |
| Decimal.ParseNatToString | draft.js:153-155 | reading a printed number gives it back |
| Decimal.Whole | draft.js:148 | the whole seconds of an estimate, and likewise the timer's whole milliseconds (timer.js line 7): negative input gives 0, otherwise the input rounded down |
| Decimal.NatToString | timer.js:3 | at least one digit, no leading zero, one digit exactly below 10 and at most two exactly below 100 |
| Decimal.NatToStringInjective | timer.js:3 | distinct numbers print differently |
| Timer.Pad2 | timer.js:3 | at least two digits, exactly two below 100, the plain number from 10 on, and always reading back as the number |
| Timer.Clamp | timer.js:4 | the result is at least the lower bound, within the bounds when they are ordered, and the value itself when it is within them |
| Timer.Fields | timer.js:6-10 | seconds below 60, hundredths below 100, and together the whole milliseconds rounded down to a multiple of ten |
| Timer.FormatTime | timer.js:6-12 | the shape "MM:SS.CS", with exactly eight characters below 100 minutes |
| Timer.FormatTimeRoundTrip | timer.js:6-12 | reading the display back gives the minutes, seconds and hundredths it was made from |
| Timer.FormatTimeValue | timer.js:6-12 | the display stands for the time rounded down to a multiple of 10 ms |
| Timer.FormatTimeZero | timer.js:7-11 | nothing left, or less than nothing, shows "00:00.00" |
| Timer.FormatTimeLongMinutes | timer.js:3 | 100 minutes or more print all their minute digits |
| Timer.SetDurationMs | timer.js:105 | the duration is never negative; an invalid input gives 0; nothing else changes |
| Timer.InitialValid | timer.js:52-55 | a new timer is stopped with a valid state |
| Timer.Start | timer.js:85-89 | with no positive duration nothing changes; otherwise the end time is now plus the duration and the timer runs |
| Timer.Reset | timer.js:91-98 | optionally a new non-negative duration; the end time restarts from now; the timer runs even with a zero duration |
| Timer.Stop | timer.js:100-103 | the timer stops with no pending frame; duration and end time are kept |
| Timer.Fraction | timer.js:73 | the progress fraction lies in [0, 1] and times the duration gives the remaining time |
| Timer.Update | timer.js:69-83 | the remaining time is the time to the end clamped to [0, duration]: exactly that time when it lies inside, 0 past the end, the duration before the start; the bar shows its share of the duration; the frame shows its text; the urgent style is on exactly at 10 s or less; at zero the timer stops |
| Timer.OperationsKeepValid | timer.js:69-105 | every operation keeps the duration non-negative and a pending frame exactly while running |
| Timer.CountdownAfterReset | timer.js:69-98 | some time after a reset, a frame shows the duration minus the elapsed time, down to zero, and the timer stops exactly when nothing is left |
| Timer.CountdownAfterStart | timer.js:69-89 | some time after a start with a positive duration, a frame shows the duration minus the elapsed time, down to zero, and the timer stops exactly when nothing is left |
| Timer.UpdateAfterEnd | timer.js:69-81 | a frame past the end time shows zeros and stops the timer |
| Table.MatchNumSound | table.js:4 | whatever the regular expression accepts is a well-formed numeral spelled exactly as the input |
| Table.MatchNumComplete | table.js:4 | the regular expression accepts every well-formed numeral and splits it into the same parts |
| Table.Coerce | table.js:6-14 | a text key comes only from present text, and is that text trimmed and lower-cased, never empty |
| Table.CoerceEmpty | table.js:7-9 | the empty key comes from blank text, and only from blank text |
| Table.CoerceNumeral | table.js:8-10 | a numeral, with any whitespace around it, gives its exact value |
| Table.CoerceText | table.js:11-13 | text that is not blank, not a numeral and not a date gives its trimmed, lower-cased self |
| Table.CellKey | table.js:43-45 | trimming the cell text before `coerce` gives the same key as `coerce` alone |
| Table.CompareZero | table.js:16-22 | compare is zero exactly on equal keys |
| Table.CompareEmptyFirst | table.js:18-19 | the empty key sorts before every other key, and every other key after it |
| Table.CompareNumbersAndTexts | table.js:20-21 | numbers compare by value, texts by the string order |
| Table.CompareAntisymmetric | table.js:16-22 | for keys of one kind, swapping them flips the sign |
| Table.CompareTransitive | table.js:16-22 | for keys of one kind, compare is transitive |
| Table.CompareMixed | table.js:16-21 | a number against a text compares with the number the text reads as, and a tie sorts each after the other; a text that reads as no number and a number each sort after the other |
| Table.InsertPermutes | table.js:47 | inserting adds exactly the row inserted |
| Table.InsertAscending | table.js:47 | inserting keeps a comparable column ascending |
| Table.InsertStable | table.js:47 | inserting a later row keeps rows with equal keys in table order |
| Table.AscendPermutes | table.js:47 | the sorted rows are the rows, each once |
| Table.AscendSorted | table.js:47 | the ascending order of a comparable column has no row above the next |
| Table.AscendStable | table.js:47 | the ascending order keeps rows with equal keys in table order, as the stable sort does |
| Table.Reverse | table.js:48 | the reverse puts row i at position n - 1 - i |
| Table.ReverseDescends | table.js:48 | reversing an ascending order gives one where no row compares below the next |
| Table.ReverseUnstable | table.js:48 | reversing a stable order puts rows with equal keys in reverse table order |
| Table.ReverseReverse | table.js:48 | reversing twice gives the rows back |
| Table.ArrangePermutes | table.js:47-48 | in either direction every row appears exactly once |
| Table.ArrangeAscending | table.js:47 | ascending: no row compares above the next, and equal keys keep table order |
| Table.ArrangeDescending | table.js:47-48 | descending: no row compares below the next, and equal keys come in reverse table order |
| Table.DescendingReversesAscending | table.js:47-48 | the descending order is exactly the ascending order reversed, and the other way round |
| Table.NextDir | table.js:35 | a click gives descending exactly when the header was ascending, and ascending otherwise |
| Table.Click | table.js:35-37 | the clicked header takes the next direction; every other header goes back to unsorted |
| Table.ClickAlternates | table.js:35-37 | repeated clicks on one header alternate between ascending and descending |
| Table.SortColumn | table.js:41-48 | the rows after a click are all the rows, each once |
| Store.K | localstorage.js:5 | the storage key is the prefix "sbbt:" followed by the key |
| Store.KInjective | localstorage.js:3-5 | distinct keys never share a storage key |
| Store.SetJSON | localstorage.js:7-15 | stores the value, the time of writing and the expiry time when a time-to-live is given; returns the value; only that key's slot changes |
| Store.GetJSON | localstorage.js:17-30 | a value is returned exactly when a readable, unexpired entry holding one is stored; an expired entry is removed; nothing else changes |
| Store.Remove | localstorage.js:32-34 | the key's entry is gone and nothing else changes |
| Store.SetThenGet | localstorage.js:7-26 | a written value reads back until its expiry time, and null after it; without a time-to-live it never expires |
| Store.GetKeepsLive | localstorage.js:17-26 | a read at or before the expiry time returns the value and leaves the storage as it is |
| Store.GetAfterExpiry | localstorage.js:22-25 | a read after the expiry time returns null and removes the entry as `remove` would; a second read changes nothing |
| Store.RemoveThenGet | localstorage.js:19-20 | after `remove`, reading the key returns null |
| Store.KeysIndependent | localstorage.js:5-34 | writing or removing one key never changes what another key reads |

## Left out

- The DOM is not part of this model, in any of the files. That includes element construction, classes and styles, `fitTitle`, the flash animation, headline text, and moving the table rows.
- Timing is a parameter or an event:
  - `Date.now()` and `performance.now()` are the parameter `now`.
  - `sleep` is a `Sleep` event in the live trace. Its length is a real number of milliseconds, since the seconds per pick may be fractional.
  - `requestAnimationFrame` is the timer's `scheduled` flag.
  - `setJSON` reads `Date.now()` twice; the model reads one `now` for both.
- `Date.parse` (table.js:11) is the parameter `dateParse`. `new Date(...)` and `toLocaleString` are abstracted too: the start time is an optional millisecond value, and the estimated finish time is not formatted.
- `localeCompare` (draft.js:66) is modelled as ordinal string order (`Text.StrLess`). A locale's collation may order names differently.
- Text.StrLess compares Unicode code points. JavaScript's string `<` (table.js:21) compares UTF-16 code units. The two disagree when a character outside the Basic Multilingual Plane is compared with one from U+E000 up, such as "😀" against "Ａ".
- Nothing in `runDraftLive` reorders the pool between picks. The live draft hands out the ranked pool in rank order.
- Text.ToLower: `toLowerCase` is modelled on ASCII letters only. This is exact for the team markers, which are ASCII. It is not exact for the text keys of table cells (table.js:13): a non-ASCII upper-case letter such as "É" keeps its case in the model, so such cells may sort differently.
- Numbers are exact reals or integers. Floating-point rounding is left out, and so are `NaN`, `Infinity` and `-0`. `Number(...)` of a stored fighter field is an optional real, `None` when it does not convert. JavaScript's reading of a text key as a number in `compare`'s `<` is the parameter `num` of `Table.Compare`.
- `JSON.stringify` and `JSON.parse` are assumed to round-trip. Stored text that does not parse as an entry is `Unreadable`. A `setItem` that throws (a full quota) is left out.
- The callbacks of `runDraftLive` are an event trace. The callbacks themselves are left out. So is the fact that the `onInit` argument shares objects that later picks mutate: the trace records values.
- `rounds` and `desiredParitySteps` (draft.js:74 and 98) have no effect in the source and are not parameters.
- `renderDraftUI` is left out beyond `humanDuration`, the two seconds clamps (draft.js:163 and 191, which are identical) and the start delay. This includes the team headers, the pool list and the per-team counters.
- Table.CompareMixed: when a column mixes numbers and texts, `compare` is not a consistent order. This holds whether the text reads as a number through `num` (text that `coerce` leaves as text, such as "1e3") or not. `Array.prototype.sort` then leaves the result to the engine. `Table.Ascend` is one insertion sort, so the sortedness and stability lemmas require a `Comparable` column. The permutation lemmas hold for every column.
- Fighters.Classify: a stored fighter whose `Team` is truthy but not a string, or a `null` entry in the stored array, makes `classifyFighters` throw (draft.js:13). That error also ends `runDraft` and `runDraftLive`. The model types `team` as a string and every entry as a fighter, so it does not model the error.
- Timer.Reset: a `NaN` new duration is not modelled, since `Math.max(0, NaN)` is `NaN`. The new duration is an optional real.
- Ranking.RankOrder and Ranking.PowerTableLookup assume unique fighter IDs. With duplicate IDs the power table keeps the last score written for an ID, as `Map.set` does. The model defines that table, but proves nothing about which fighter's score wins.
- Ranking.StatProbBounds, Ranking.PowerBounds and Ranking.RecordRate assume non-negative stats and record counts. With negative values the JavaScript can divide by zero. Record counts are therefore a non-negative type (`Fighters.Count`).
