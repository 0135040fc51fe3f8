# Burger lottery draw — a Dafny model

This project models the draw of the comment lottery page in `src/App.js`. The
page collects the comments of a forum post. It removes duplicate authors to
get the participants. It then draws the requested number of winners and
reveals them one slot-machine row at a time. The Dafny model covers four parts:

- **Participants** (`participants.dfy`): the participant list
  `[...new Set(comments.map(c => c.author))]`. It has no duplicates, holds
  exactly the authors, and keeps the order of first appearance.
- **Selection** (`selection.dfy`): the Durstenfeld form of the Fisher–Yates
  shuffle on a copy of the participants, then the first `winnerCount` entries.
  The shuffle is an in-place array loop, proved equal to a function on
  sequences. That function is proved to be a permutation. Every ordering is
  reachable, and for distinct participants the swap choices determine the
  ordering. So the valid swap choices and the orderings correspond one to one.
- **WinnerCountInput** (`winner_count.dfy`): the winner-count field's
  `parseInt(e.target.value) || 1`. It models `parseInt` without a radix:
  leading white space, a sign, the `0x` prefix, and the longest digit run.
- **DrawEngine** (`draw_engine.dfy`): the page state as a class `App`, with one
  field per React state hook. `handleDraw` is split into explicit steps
  (`BeginDraw`, `AddSlot`, `Tick`, `Spin`, `Stop`, `Finish`). The driver `Draw`
  runs them in order, with a loop invariant that ties the revealed slots to the
  selected winners. `handleReset` is `Reset`.

`Math.random` is replaced by oracle inputs. `swaps[i]` is the index that
position `i` is swapped with. It is at most `i`, as `Math.floor(Math.random() *
(i + 1))` guarantees. `spinPicks[k]` holds the 50 participant indices that slot
`k`'s ticker shows, each below the number of participants. Timers become
ordered steps. The 500 ms waits change no state, so they are dropped.

Points of the code's behaviour that the model follows as written:
- There is no cancellation: `handleRedraw` only calls `handleDraw`
  (src/App.js:157-159), and only the disabled or hidden buttons keep two draws
  from overlapping. The model runs one draw at a time.
- The participants keep the order in which their authors first appear
  (src/App.js:76), and the shuffle starts from that order.
- A new slot starts spinning and shows `???` (src/App.js:106). There is no idle
  phase, and the final settle step is only a wait (src/App.js:142).
- A refused request shows an `alert` and returns (src/App.js:69-87). The model
  returns a `NotDrawn` outcome and leaves the state unchanged.

## Model

| member | source | states |
|---|---|---|
| `Participants.Authors` | src/App.js:76 | The author list has one entry per comment, in comment order. |
| `Participants.Dedup` | src/App.js:76 | The deduplicated list has no duplicates, contains exactly the elements of its input, and is no longer than the input. |
| `Participants.DedupKeepsFirstAppearanceOrder` | src/App.js:76 | The deduplicated list is ordered by each element's first position in the input. |
| `Participants.UniqueUsers` | src/App.js:76 | The participants have no duplicates and are exactly the comment authors. There is at least one participant when there is a comment. |
| `Selection.Swap` | src/App.js:93 | The destructuring swap exchanges positions `i` and `j` and leaves every other position alone. |
| `Selection.ShuffleDown` | src/App.js:91-94 | The descending swap loop, as a value, keeps the list's length. |
| `Selection.Shuffled` | src/App.js:90-94 | The loop from the last position down to 1 keeps the list's length and its multiset of entries. |
| `Selection.ShuffleDownIsPermutation` | src/App.js:91-94 | The swap loop's result is a permutation of its input. |
| `Selection.ShuffleDownKeepsDistinct` | src/App.js:91-94 | Shuffling a list without duplicates yields a list without duplicates. |
| `Selection.ShuffleDownKeepsTail` | src/App.js:91-94 | The loop from position `top` down never touches positions above `top`. |
| `Selection.ShuffledIsPermutation` | src/App.js:90-94 | The shuffle keeps the length and the multiset of participants, so no participant is lost, duplicated or invented. Distinct input gives distinct output. |
| `Selection.ShuffleDownReaches` | src/App.js:91-94 | Any rearrangement of the first `top + 1` positions can be produced by some valid swap indices. |
| `Selection.EveryOrderingReachable` | src/App.js:90-94 | Every permutation of the participants is the result of some valid choice of swap indices. |
| `Selection.ShuffleDownInjective` | src/App.js:91-94 | With distinct entries, equal results imply equal swap indices at every position the loop visits. |
| `Selection.SwapsDetermineOrdering` | src/App.js:90-94 | For distinct participants, two swap choices that give the same ordering agree at every position 1..n-1. With reachability, this makes swap choices and orderings correspond one to one. |
| `Selection.EveryWinnerListReachable` | src/App.js:90-95 | Every list of distinct participants can be the winner list for some swap choice. |
| `Selection.ShuffleInPlace` | src/App.js:90-94 | The in-place loop leaves the array equal to the specified shuffle of its old contents. |
| `Selection.Selected` | src/App.js:95 | The winners are exactly `winnerCount` participants, without duplicates when the participants have none. When the count equals the number of participants, they are a permutation of all of them. |
| `Selection.SelectWinners` | src/App.js:90-95 | Copying into a fresh array, shuffling in place and taking the prefix yields `Selected`. The participant list is a value and is not changed. |
| `WinnerCountInput.TrimStart` | src/App.js:240 | `parseInt` drops a prefix made only of white space and line terminators, and the rest starts with neither. |
| `WinnerCountInput.LeadingDigits` | src/App.js:240 | The digits read are the longest prefix of digits in the chosen base. |
| `WinnerCountInput.ParseMagnitude` | src/App.js:240 | After the sign, the result is NaN exactly when the text does not start with a number: a hex digit after `0x`/`0X`, otherwise a decimal digit. A number read is never negative. |
| `WinnerCountInput.ParseInt` | src/App.js:240 | `parseInt(value)` is NaN exactly when no number starts after the leading white space and an optional sign. A negative result needs a `-` sign right after the white space. |
| `WinnerCountInput.WinnerCountFromInput` | src/App.js:240 | The stored count is never 0. NaN or zero becomes 1, and any other result is the number read. |
| `WinnerCountInput.ParsesTypedCount` | src/App.js:240 | For any string made of white space, the decimal digits of a positive `n`, then text not starting with a digit, the stored count is `n`. |
| `WinnerCountInput.ParsesNegativeCount` | src/App.js:240 | A negative count is stored negative; it is not replaced by 1. |
| `WinnerCountInput.ZeroCountBecomesOne` | src/App.js:240 | `0`, `+0` and `-0` are stored as 1. |
| `WinnerCountInput.InputWithoutDigitsBecomesOne` | src/App.js:240 | Input with no decimal digit (empty, letters, a lone sign) is stored as 1. |
| `DrawEngine.Validate` | src/App.js:69-87 | A request is accepted exactly when there are comments and `1 <= winnerCount <= participants`. Each refusal names its cause, in the source's order: no comments, then a count below 1, then too many winners. |
| `DrawEngine.WithName` | src/App.js:118-121 | A tick's map changes only slot `i`, and only its name. |
| `DrawEngine.WithWinner` | src/App.js:135-138 | The stop's map changes only slot `i`: its name becomes the winner, `spinning` false, `stopped` true. |
| `DrawEngine.Revealed` | src/App.js:104-143 | After the reveal, slot `k` has rank `k + 1`, shows winner `k`, and is stopped and not spinning. |
| `DrawEngine.NameOverwritten` | src/App.js:116-129 | A later tick hides an earlier one: only the last tick's name remains. |
| `DrawEngine.RevealStep` | src/App.js:104-143 | One loop iteration (append `???`, spin, stop) extends the revealed prefix by exactly the next winner, whatever the ticker showed. |
| `DrawEngine.App.constructor` | src/App.js:8-20 | The page starts with every state hook at its initial value. |
| `DrawEngine.App.EnterUrl` | src/App.js:196 | Typing a URL changes only `url`. |
| `DrawEngine.App.LoadCrawlResult` | src/App.js:50-63 | A successful crawl stores the comments, counts, session id and completion message, moves to step 2 and clears `loading`. Nothing else changes. |
| `DrawEngine.App.ShowSettings` | src/App.js:57 | The delayed step change moves to step 3 and changes nothing else. |
| `DrawEngine.App.EnterWinnerCount` | src/App.js:240 | Editing the count stores `WinnerCountFromInput(value)`, which is never 0, and changes nothing else. |
| `DrawEngine.App.BeginDraw` | src/App.js:98-101 | Starting a draw sets `isDrawing`, moves to step 4, and empties `slots` and `winners`. Nothing else changes. |
| `DrawEngine.App.AddSlot` | src/App.js:106 | Iteration `i` appends exactly one slot `{rank: i+1, name: '???', spinning: true}`. Earlier slots stay untouched. |
| `DrawEngine.App.Tick` | src/App.js:117-122 | A tick sets slot `i`'s name to a participant. Every other slot and slot `i`'s rank are unchanged. |
| `DrawEngine.App.Spin` | src/App.js:112-129 | With `elapsed` rising by 100 up to 5000, the ticker fires exactly 50 times. Only slot `i`'s name changes, and it ends on the last pick. |
| `DrawEngine.App.Stop` | src/App.js:135-139 | Stopping slot `i` shows its true winner and marks it stopped. Nothing else changes. |
| `DrawEngine.App.Finish` | src/App.js:146-147 | Completion publishes the winners and clears `isDrawing`. |
| `DrawEngine.App.Draw` | src/App.js:68-154 | A refused request returns its error and changes nothing. An accepted one returns `Selected(participants, winnerCount, swaps)` and publishes it as `winners`, with `isDrawing` false and step 4. Slot `k` ends with rank `k + 1`, showing winner `k`, stopped. Nothing of an earlier draw survives. |
| `DrawEngine.App.Reset` | src/App.js:162-174 | Every field the handler writes returns to its initial value. `loading` is not written. Resetting an already reset page changes nothing. |

## Left out

- `handleCrawl` (src/App.js:23-65) is left out: it is a `fetch` to the backend plus JSON decoding. Only the state writes of its success branch are modelled, by `LoadCrawlResult`, which takes the decoded response as input. Its failure messages and the `loading` flag it sets at the start are not modelled.
- `Math.random` and `Math.floor` over floating point (src/App.js:92, 117) become oracle inputs of bounded integer indices. The shuffle's uniformity is a statistical claim. The model proves only its structural basis: swap choices and orderings correspond one to one.
- Timers (`setTimeout`, `setInterval`, src/App.js:57, 109, 116-129, 132, 142) become ordered steps. The 500 ms waits change no state. The model assumes the ticker's 50 firings all happen before the stop write. The race between the 5000 ms timeout and the 50th firing is not modelled.
- The model covers no overlapping or cancelled draws. The source has no cancellation, and its buttons keep draws from overlapping (src/App.js:247, 282).
- App.Draw: runs as one uninterrupted step. The source leaves other handlers live during the several seconds a draw takes: the crawl button and Enter in the URL field (src/App.js:197, 203), URL edits and the count field (src/App.js:196, 235-240). A crawl finishing mid-draw would replace `comments` and end on step 3 rather than step 4. That interleaving is not modelled.
- `handleRedraw` (src/App.js:157-159) only calls `handleDraw`, so `App.Draw` models both.
- The `catch` branch of `handleDraw` (src/App.js:149-153) is not modelled. Nothing inside the modelled `try` block can throw.
- The model leaves out `alert` and `console` calls, `goToChannel`'s `window.open` (src/App.js:177-179), and all JSX rendering (src/App.js:181-321).
- WinnerCountInput.WinnerCountFromInput: accepts any string. The `<input type="number">` field (src/App.js:236) only delivers `""` or a valid floating-point string, so leading white space, `+`, `0x` and trailing letters never reach `parseInt`. The model is a superset of what the field delivers. The lemmas about padded or suffixed text describe `parseInt`, not field contents.
- `WinnerCountFromInput` uses unbounded integers. It does not model how JavaScript Numbers lose precision above 2^53 when a very long digit string is read.
- A comment record is modelled by its `author` string only. The other fields of the crawled records are never read by the draw.
- The Python backend (api/app.py, api/crawler.py) is not part of this model. It does HTTP scraping, Flask routing and session storage. Its author deduplication is the same operation as `Participants.Dedup`.
