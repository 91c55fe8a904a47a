# Post poll widget: vote tally and result numbers

This project models the logic of the blog's post poll widget (`js/post-poll.js`),
and proves properties about it. Each poll keeps a record `{votes, total, userVote}`.
`votes` maps an option id to its count, `total` is the number of participants, and
`userVote` is the option this browser chose. Clicking an option records one vote,
but only while no vote is recorded. The result block shows, for each option, a
colour, a letter label, the count, a percentage of the participants and a bar
height relative to the largest count.

Two modules:

- `PollTally` (`tally.dfy`) holds the record as a value (`PollData`) and the click
  handler's effect on it as a function (`AfterVote`). The class `Poll`
  holds the same record as mutable fields, and its `Vote` method updates them in
  place, as the handler does. `Vote` is proved to produce exactly `AfterVote` of
  the old state. The invariant `total == Sum(votes)` is proved to hold at the start
  and to be kept by every vote.
- `PollDisplay` (`display.dfy`) holds the per-option numbers as functions and
  `ShowResult`, the loop that builds one result entry per option.

Modelling choices that follow the JavaScript semantics:

- An option id is `Attr(text)`, or `Undefined` when the element has no
  `data-option` attribute. `Undefined` reads and writes the property named
  `"undefined"` (`Key`), as JavaScript converts the key to a string.
- The guard `if (pollData.userVote) return;` is JavaScript truthiness (`HasVoted`).
  Only a recorded non-empty string blocks a vote. If the recorded choice is `null`,
  `undefined` or `""`, the next click is counted as well. The same test decides
  whether results are shown when the page loads (line 59).
- `pollData.votes[id] || 0` is `Count`: a missing entry reads as 0. It is used
  at lines 40, 69, 83 and 89.
- `Math.max(...)` over no options is `-Infinity`. This is the `NegInfinity` case
  of `Peak`, and `maxVotes > 0` is false for it.
- `String.fromCharCode(65 + index)` reduces its argument modulo 2^16. `Label`
  does the same and returns the UTF-16 code unit as a number.
- Percentages and bar heights are exact reals, not IEEE doubles.

Two behaviours of the code worth knowing:

- The bar height is `votes / maxVotes * 100`, with no minimum height. When some
  option has a vote, the tallest bar is 100 (`TallestBarIsFull`).
- An empty or missing option id is recorded as `userVote` but does not block
  later votes (`FalsyChoiceDoesNotBlock`).

## Model

| member | source | states |
|---|---|---|
| `PollTally.Key` | js/post-poll.js:40 | the definition of the property name an option id selects, with `undefined` read as the name "undefined"; its collision with `Attr("undefined")` is carried by `OtherCountsUnchanged` and `KeysCollide` |
| `PollTally.HasVoted` | js/post-poll.js:37 | the definition of the truthiness test on the recorded choice: a non-empty string is truthy, while `null`, `undefined` and `""` are not; `VoteIgnoredOnceVoted`, `VoteAcceptedIff` and `FalsyChoiceDoesNotBlock` carry its consequences |
| `PollTally.Count` | js/post-poll.js:40 | the definition of `votes[id] || 0`, also used at lines 69, 83 and 89: the stored count, or 0 for a missing entry; `Empty`, `VoteAccepted`, `OtherCountsUnchanged` and `CountAtMostTotal` carry its properties |
| `PollTally.AfterVote` | js/post-poll.js:37-42 | the definition of the click handler's effect on the record; `Poll.Vote` is proved to produce it, and `VoteIgnoredOnceVoted`, `VoteAccepted`, `VoteAcceptedIff`, `VotePreservesValid` and `SecondVoteIsNoop` carry its properties |
| `PollTally.Empty` | js/post-poll.js:22 | the record used when nothing is saved meets the tally invariant, has no vote recorded, and every option's count reads 0 |
| `PollTally.Poll.constructor` | js/post-poll.js:22 | a fresh poll object holds the empty record and meets the tally invariant |
| `PollTally.Poll.Restore` | js/post-poll.js:21-22 | a poll object restored from saved data holds exactly that data |
| `PollTally.Poll.Vote` | js/post-poll.js:36-42 | the in-place update is accepted exactly when no truthy choice is recorded; the new state is `AfterVote` of the old one; an accepted vote adds one to the chosen count; every other existing entry keeps its value; an ignored vote changes no field; the tally invariant is kept |
| `PollTally.VoteIgnoredOnceVoted` | js/post-poll.js:37 | with a non-empty choice recorded, a vote returns the record unchanged |
| `PollTally.VoteAcceptedIff` | js/post-poll.js:37 | a vote changes the record if and only if no truthy choice is recorded |
| `PollTally.VoteAccepted` | js/post-poll.js:40-42 | an accepted vote adds exactly one to the chosen option's count (a missing entry counts as 0), adds only that key, keeps every other entry, adds one to `total` and records the option as the user's vote |
| `PollTally.OtherCountsUnchanged` | js/post-poll.js:40 | an option whose property name differs from the chosen one keeps its count, whether or not the vote is accepted |
| `PollTally.VotePreservesValid` | js/post-poll.js:37-41 | if `total` equals the sum of the counts before a vote, accepted or ignored, it still does after |
| `PollTally.SecondVoteIsNoop` | js/post-poll.js:37-42 | after a vote for a non-empty option id, any further vote leaves the record as it is |
| `PollTally.FalsyChoiceDoesNotBlock` | js/post-poll.js:37-42 | a vote for a missing or empty option id is recorded, but a second vote is still accepted, so `total` rises by two |
| `PollTally.CountAtMostTotal` | js/post-poll.js:40-41 | under the tally invariant, no option's count exceeds `total` |
| `PollTally.SumUpdate` | js/post-poll.js:40 | overwriting one entry of `votes` changes the sum of the counts by the new value minus the old one (0 if the entry was missing) |
| `PollDisplay.Percentage` | js/post-poll.js:90 | the definition of an option's percentage as an exact real; `PercentageWhenNoVotes`, `PercentageIsShare`, `PercentageBounds` and `PercentageExample` carry its properties |
| `PollDisplay.BarHeight` | js/post-poll.js:91 | the definition of an option's bar height as an exact real; `BarHeightZero`, `BarHeightFull` and `BarHeightBounds` carry its properties |
| `PollDisplay.IsSelected` | js/post-poll.js:94 | the definition of the selection mark `userVote === optionId`; `SelectedAfterVote` carries its properties |
| `PollDisplay.RowOf` | js/post-poll.js:87-94 | the definition of one result entry from the label, count, percentage, bar height, colour and selection mark of its option; `ShowResult` is proved to produce it, and `RowBounds` and `TallestBarIsFull` carry its properties |
| `PollDisplay.Color` | js/post-poll.js:29 | an option's colour is always one of the eight palette entries, and the first eight positions get the palette in order |
| `PollDisplay.ColorPeriodic` | js/post-poll.js:29 | positions a multiple of 8 apart get the same colour |
| `PollDisplay.MaxVotes` | js/post-poll.js:83 | the value is `-Infinity` exactly when there are no options; otherwise it is at least every option's count and equal to some option's count |
| `PollDisplay.PercentageWhenNoVotes` | js/post-poll.js:90 | with no participants the percentage is 0 |
| `PollDisplay.PercentageIsShare` | js/post-poll.js:90 | with participants, the percentage times `total` is the count times 100 |
| `PollDisplay.PercentageBounds` | js/post-poll.js:90 | under the tally invariant every option's percentage lies between 0 and 100 |
| `PollDisplay.PercentageExample` | js/post-poll.js:89-90 | with votes A:3 and B:1 among 4 participants, the tally is valid and A shows 75% and B 25% |
| `PollDisplay.BarHeightZero` | js/post-poll.js:91 | when the largest count is `-Infinity` or 0, the bar height is 0 |
| `PollDisplay.BarHeightFull` | js/post-poll.js:91 | an option whose positive count equals the largest count gets a bar of height 100 |
| `PollDisplay.BarHeightBounds` | js/post-poll.js:91 | a count no larger than the largest count gives a bar height between 0 and 100 |
| `PollDisplay.Label` | js/post-poll.js:92 | the label is a single UTF-16 code unit (below 2^16), and it is exactly 65 + index whenever that fits in 16 bits |
| `PollDisplay.LabelWraps` | js/post-poll.js:92 | positions 2^16 apart get the same label, as `fromCharCode` reduces its argument modulo 2^16 |
| `PollDisplay.LabelLetters` | js/post-poll.js:92 | position i below 26 gets the code 65 + i, the letters 'A' to 'Z'; position 0 gets 'A' |
| `PollDisplay.LabelsDistinct` | js/post-poll.js:92 | positions fewer than 2^16 apart get different labels |
| `PollDisplay.SelectedAfterVote` | js/post-poll.js:94 | after an accepted vote for `o`, an option is marked selected if and only if its id equals `o`; in the empty record none is |
| `PollDisplay.RowBounds` | js/post-poll.js:87-94 | every result entry's bar height lies between 0 and 100; under the tally invariant so does its percentage |
| `PollDisplay.TallestBarIsFull` | js/post-poll.js:83-91 | when some option has a vote, some result entry has a bar of height 100 |
| `PollDisplay.ShowResult` | js/post-poll.js:82-108 | the result loop returns `total` and one entry per option, in order; the entry at position i has that option's label, count, percentage, bar height, colour and selection mark |

## Left out

- DOM queries, `dataset` reads and writes, `classList` changes and event listener
  wiring are browser plumbing. The model receives the option ids as a sequence in
  page order.
- `localStorage` reads and writes with `JSON.parse` and `JSON.stringify` are
  foreign storage calls. The model starts from the empty record, or from a
  restored `PollData` that is taken to be well-formed. This includes saving the
  record after a vote.
- The refresh after a vote (updating every option's count and showing the result
  block) is DOM output. The numbers it displays are `Count` and `ShowResult`.
- HTML assembly and `innerHTML` writes are rendering output. `ShowResult` returns
  the entries' values instead of markup.
- `toFixed(1)` formatting and IEEE double division are floating-point behaviour.
  Percentages and bar heights are exact reals.
- Counts and `total` are unbounded naturals. JavaScript numbers stop counting
  exactly above 2^53.
- Option ids that name inherited object properties (such as `"constructor"` or
  `"__proto__"`) read a non-number from `votes` in JavaScript. The model treats
  `votes` as a plain map with no inherited entries.
- Saved data whose counts are not numbers, or whose `total` is missing, is not
  modelled (`total || 0` is the identity on naturals).
- `PollDisplay.Label`: the label is kept as a UTF-16 code unit instead of a
  character, because a Dafny character cannot hold a lone surrogate.
- The page lifecycle hooks (`DOMContentLoaded`, PJAX re-initialisation) are event
  plumbing with no state logic of their own.
