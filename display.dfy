/**
 The numbers the post poll widget shows for each option: its colour, its
 count, its share of the participants, the height of its result bar, its
 letter label and whether it is this browser's choice; and the result block
 that lists those numbers option by option.
 */
module PollDisplay {
  import opened PollTally

  /** The eight option colours, assigned round-robin by option position. */
  const Palette: seq<string> :=
    ["#e74c3c", "#3498db", "#2ecc71", "#f39c12", "#9b59b6", "#1abc9c", "#e67e22", "#34495e"]

  /** The colour of the option at position `index`. */
  function Color(index: nat): (c: string)
    ensures c in Palette
    ensures index < |Palette| ==> c == Palette[index]
  {
    Palette[index % |Palette|]
  }

  /** Options a whole number of palette lengths apart share a colour. */
  lemma ColorPeriodic(index: nat, k: nat)
    ensures Color(index + 8 * k) == Color(index)
  {
  }

  /** The result of `Math.max` over the options' counts: `-Infinity` when
      there are no options, otherwise the largest count. */
  datatype Peak = NegInfinity | Finite(n: nat)

  function MaxVotes(votes: map<string, nat>, options: seq<OptionId>): (m: Peak)
    ensures m == NegInfinity <==> options == []
    ensures m.Finite? ==> forall i :: 0 <= i < |options| ==> Count(votes, options[i]) <= m.n
    ensures m.Finite? ==> exists i :: 0 <= i < |options| && Count(votes, options[i]) == m.n
  {
    if options == [] then NegInfinity
    else
      var rest := MaxVotes(votes, options[1..]);
      var c := Count(votes, options[0]);
      if rest.Finite? && rest.n > c then rest else Finite(c)
  }

  /** An option's share of the participants in percent; 0 when nobody voted. */
  function Percentage(votes: nat, total: nat): real
  {
    if total > 0 then votes as real / total as real * 100.0 else 0.0
  }

  /** The height of an option's bar in percent of the tallest bar; 0 when
      the largest count is not positive. */
  function BarHeight(votes: nat, maxVotes: Peak): real
  {
    if maxVotes.Finite? && maxVotes.n > 0 then votes as real / maxVotes.n as real * 100.0 else 0.0
  }

  /** `String.fromCharCode(65 + index)`: the UTF-16 code unit of the label,
      the argument reduced modulo 2^16 as `fromCharCode` does. */
  function Label(index: nat): (c: nat)
    ensures c < 0x1_0000
    ensures 65 + index < 0x1_0000 ==> c == 65 + index
    ensures index < 0x1_0000 <= 65 + index ==> c == 65 + index - 0x1_0000
  {
    (65 + index) % 0x1_0000
  }

  /** Whether the option is this browser's choice (`userVote === optionId`). */
  predicate IsSelected(userVote: UserVote, o: OptionId)
  {
    userVote == Chosen(o)
  }

  /** One entry of the result block. */
  datatype ResultRow = ResultRow(
    letter: nat, votes: nat, percentage: real, barHeight: real, color: string, selected: bool)

  /** The entry for the option at position `index`. */
  function RowOf(s: PollData, options: seq<OptionId>, index: nat, maxVotes: Peak): ResultRow
    requires index < |options|
  {
    var votes := Count(s.votes, options[index]);
    ResultRow(Label(index), votes, Percentage(votes, s.total), BarHeight(votes, maxVotes),
              Color(index), IsSelected(s.userVote, options[index]))
  }

  // ---------------------------------------------------------------------
  // Properties of the displayed numbers

  /** With no participants every percentage is 0, never a division by 0. */
  lemma PercentageWhenNoVotes(votes: nat)
    ensures Percentage(votes, 0) == 0.0
  {
  }

  /** The percentage is the count over the participants, times 100. */
  lemma PercentageIsShare(votes: nat, total: nat)
    requires total > 0
    ensures Percentage(votes, total) * (total as real) == votes as real * 100.0
  {
  }

  /** Under the tally invariant every option's percentage lies in [0, 100]. */
  lemma PercentageBounds(s: PollData, o: OptionId)
    requires Valid(s)
    ensures 0.0 <= Percentage(Count(s.votes, o), s.total) <= 100.0
  {
    CountAtMostTotal(s, o);
    var v := Count(s.votes, o);
    if s.total > 0 {
      RatioAtMostOne(v, s.total);
    }
  }

  lemma RatioAtMostOne(v: nat, d: nat)
    requires 0 < d && v <= d
    ensures 0.0 <= v as real / d as real <= 1.0
  {
  }

  /** Three votes for A and one for B among four participants: 75% and 25%. */
  lemma PercentageExample()
    ensures var s := PollData(map["A" := 3, "B" := 1], 4, Null);
      && Valid(s)
      && Percentage(Count(s.votes, Attr("A")), s.total) == 75.0
      && Percentage(Count(s.votes, Attr("B")), s.total) == 25.0
  {
    var m := map["A" := 3, "B" := 1];
    SumRemove(m, "A");
    assert m - {"A"} == map["B" := 1];
    SumRemove(map["B" := 1], "B");
    assert map["B" := 1] - {"B"} == map[];
  }

  /** The bar height is 0 when the largest count is not positive. */
  lemma BarHeightZero(votes: nat, maxVotes: Peak)
    requires maxVotes == NegInfinity || maxVotes == Finite(0)
    ensures BarHeight(votes, maxVotes) == 0.0
  {
  }

  /** The option with the largest, positive, count gets a full bar. */
  lemma BarHeightFull(votes: nat, maxVotes: Peak)
    requires maxVotes == Finite(votes) && votes > 0
    ensures BarHeight(votes, maxVotes) == 100.0
  {
  }

  /** Every option's bar lies in [0, 100]. */
  lemma BarHeightBounds(votes: nat, maxVotes: Peak)
    requires maxVotes.Finite? ==> votes <= maxVotes.n
    ensures 0.0 <= BarHeight(votes, maxVotes) <= 100.0
  {
    if maxVotes.Finite? && maxVotes.n > 0 {
      RatioAtMostOne(votes, maxVotes.n);
    }
  }

  /** The first option is labelled 'A', and the first 26 get 'A' to 'Z'. */
  lemma LabelLetters(index: nat)
    requires index < 26
    ensures Label(index) == 'A' as nat + index
    ensures 'A' as nat <= Label(index) <= 'Z' as nat
    ensures index == 0 ==> Label(index) == 'A' as nat
  {
  }

  /** Options 2^16 positions apart share a label, so with the value `Label`
      states for the positions below 2^16 the label of every position is fixed. */
  lemma LabelWraps(index: nat)
    ensures Label(index + 0x1_0000) == Label(index)
  {
  }

  /** Options fewer than 2^16 positions apart get different labels. */
  lemma LabelsDistinct(i: nat, j: nat)
    requires i < j < i + 0x1_0000
    ensures Label(i) != Label(j)
  {
  }

  /** After an accepted vote for `o`, exactly the options whose id is `o` are
      marked selected; before any vote none is. */
  lemma SelectedAfterVote(s: PollData, o: OptionId, p: OptionId)
    requires !HasVoted(s)
    ensures IsSelected(AfterVote(s, o).userVote, p) <==> p == o
    ensures !IsSelected(Empty().userVote, p)
  {
  }

  /** Every bar of the result block lies in [0, 100], and under the tally
      invariant so does every percentage. */
  lemma RowBounds(s: PollData, options: seq<OptionId>, index: nat)
    requires index < |options|
    ensures var row := RowOf(s, options, index, MaxVotes(s.votes, options));
      && 0.0 <= row.barHeight <= 100.0
      && (Valid(s) ==> 0.0 <= row.percentage <= 100.0)
  {
    BarHeightBounds(Count(s.votes, options[index]), MaxVotes(s.votes, options));
    if Valid(s) {
      PercentageBounds(s, options[index]);
    }
  }

  /** When some option has a vote, some bar of the result block is full. */
  lemma TallestBarIsFull(s: PollData, options: seq<OptionId>)
    requires exists i :: 0 <= i < |options| && Count(s.votes, options[i]) > 0
    ensures exists j :: 0 <= j < |options| && RowOf(s, options, j, MaxVotes(s.votes, options)).barHeight == 100.0
  {
    var maxVotes := MaxVotes(s.votes, options);
    var j :| 0 <= j < |options| && Count(s.votes, options[j]) == maxVotes.n;
    BarHeightFull(Count(s.votes, options[j]), maxVotes);
    assert RowOf(s, options, j, maxVotes).barHeight == 100.0;
  }

  // ---------------------------------------------------------------------
  // The result block

  /** The loop of the result renderer: one entry per option, in order, and
      the participant count shown beneath them. */
  method ShowResult(s: PollData, options: seq<OptionId>) returns (rows: seq<ResultRow>, total: nat)
    ensures total == s.total
    ensures |rows| == |options|
    ensures forall i :: 0 <= i < |rows| ==> rows[i] == RowOf(s, options, i, MaxVotes(s.votes, options))
  {
    total := s.total;
    var maxVotes := MaxVotes(s.votes, options);
    rows := [];
    var index := 0;
    while index < |options|
      invariant 0 <= index <= |options|
      invariant |rows| == index
      invariant forall i :: 0 <= i < index ==> rows[i] == RowOf(s, options, i, maxVotes)
    {
      var votes := Count(s.votes, options[index]);
      var percentage := Percentage(votes, total);
      var barHeight := BarHeight(votes, maxVotes);
      var row := ResultRow(Label(index), votes, percentage, barHeight, Color(index),
                           IsSelected(s.userVote, options[index]));
      rows := rows + [row];
      index := index + 1;
    }
  }
}
