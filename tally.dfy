/**
 The per-poll vote tally kept by the post poll widget: a record of vote counts
 per option id, the number of participants and the option this browser chose,
 together with the click handler's update of that record.
 */
module PollTally {

  /** What `option.dataset.option` yields: the attribute's text, or `undefined`
      when the option element has no `data-option` attribute. */
  datatype OptionId = Attr(text: string) | Undefined

  /** The recorded choice of this browser: `null` in a fresh record, otherwise
      whatever `dataset.option` gave at the click. */
  datatype UserVote = Null | Chosen(id: OptionId)

  /** The saved poll record `{votes, total, userVote}`. */
  datatype PollData = PollData(votes: map<string, nat>, total: nat, userVote: UserVote)

  /** The property name an option id selects in the `votes` object:
      JavaScript converts `undefined` to the string "undefined". */
  function Key(o: OptionId): string
  {
    match o
    case Attr(s) => s
    case Undefined => "undefined"
  }

  /** Two option ids select the same property exactly when they are equal, or
      when one is a missing attribute and the other the text "undefined". */
  lemma KeysCollide(o: OptionId, p: OptionId)
    ensures Key(o) == Key(p) <==>
      o == p || (o == Undefined && p == Attr("undefined")) || (o == Attr("undefined") && p == Undefined)
  {
  }

  /** JavaScript truthiness of the recorded vote: `null`, `undefined` and
      the empty string are falsy, every other string is truthy. */
  predicate HasVoted(s: PollData)
  {
    s.userVote.Chosen? && s.userVote.id.Attr? && s.userVote.id.text != ""
  }

  /** `pollData.votes[optionId] || 0`: the count of an option, a missing
      entry read as zero. */
  function Count(votes: map<string, nat>, o: OptionId): nat
  {
    if Key(o) in votes then votes[Key(o)] else 0
  }

  /** The record used when nothing is saved for the poll. */
  function Empty(): (s: PollData)
    ensures Valid(s) && !HasVoted(s)
    ensures forall o: OptionId :: Count(s.votes, o) == 0
  {
    PollData(map[], 0, Null)
  }

  /** The click handler's effect on the record: ignored once a truthy vote is
      recorded; otherwise one more vote for `o`, one more participant, and
      `o` recorded as this browser's choice. */
  function AfterVote(s: PollData, o: OptionId): PollData
  {
    if HasVoted(s) then s
    else PollData(s.votes[Key(o) := Count(s.votes, o) + 1], s.total + 1, Chosen(o))
  }

  // ---------------------------------------------------------------------
  // Sum of the counts

  ghost function Pick(m: map<string, nat>): (k: string)
    requires m != map[]
    ensures k in m
  {
    var k :| k in m; k
  }

  /** The sum of all counts in the `votes` object. */
  ghost function Sum(m: map<string, nat>): nat
    decreases |m|
  {
    if m == map[] then 0
    else
      var k := Pick(m);
      assert |m - {k}| < |m| by { assert (m - {k}).Keys == m.Keys - {k}; }
      m[k] + Sum(m - {k})
  }

  /** The tally invariant: the participant count is the sum of the counts. */
  ghost predicate Valid(s: PollData)
  {
    s.total == Sum(s.votes)
  }

  /** Taking any one entry out of the sum leaves the rest of the sum. */
  lemma {:induction false} SumRemove(m: map<string, nat>, k: string)
    requires k in m
    ensures Sum(m) == m[k] + Sum(m - {k})
    decreases |m|
  {
    var j := Pick(m);
    if j != k {
      var mj := m - {j};
      var mk := m - {k};
      assert (mj - {k}) == (mk - {j});
      assert |mj| < |m| by { assert mj.Keys == m.Keys - {j}; }
      assert |mk| < |m| by { assert mk.Keys == m.Keys - {k}; }
      SumRemove(mj, k);
      SumRemove(mk, j);
    }
  }

  /** Overwriting one entry changes the sum by the difference of the values. */
  lemma SumUpdate(m: map<string, nat>, k: string, v: nat)
    ensures Sum(m[k := v]) + (if k in m then m[k] else 0) == Sum(m) + v
  {
    var m' := m[k := v];
    SumRemove(m', k);
    if k in m {
      SumRemove(m, k);
      assert m' - {k} == m - {k};
    } else {
      assert m' - {k} == m;
    }
  }

  /** No single count exceeds the sum. */
  lemma EntryAtMostSum(m: map<string, nat>, k: string)
    requires k in m
    ensures m[k] <= Sum(m)
  {
    SumRemove(m, k);
  }

  // ---------------------------------------------------------------------
  // Properties of a vote

  /** Once a non-empty choice is recorded, a click changes nothing at all. */
  lemma VoteIgnoredOnceVoted(s: PollData, o: OptionId)
    requires HasVoted(s)
    ensures AfterVote(s, o) == s
  {
  }

  /** An accepted vote raises the chosen option's count by one (a missing
      entry read as 0), leaves every other entry of `votes` as it was, adds one
      participant and records the choice. */
  lemma VoteAccepted(s: PollData, o: OptionId)
    requires !HasVoted(s)
    ensures var r := AfterVote(s, o);
      && Key(o) in r.votes
      && Count(r.votes, o) == Count(s.votes, o) + 1
      && r.votes.Keys == s.votes.Keys + {Key(o)}
      && (forall k :: k in s.votes && k != Key(o) ==> r.votes[k] == s.votes[k])
      && r.total == s.total + 1
      && r.userVote == Chosen(o)
  {
  }

  /** An option that shares no property name with the chosen one keeps its
      count, accepted vote or not. Note that `Attr("undefined")` and
      `Undefined` share a name. */
  lemma OtherCountsUnchanged(s: PollData, o: OptionId, p: OptionId)
    requires Key(p) != Key(o)
    ensures Count(AfterVote(s, o).votes, p) == Count(s.votes, p)
  {
  }

  /** A vote is accepted exactly when no truthy choice is recorded. */
  lemma VoteAcceptedIff(s: PollData, o: OptionId)
    ensures AfterVote(s, o) != s <==> !HasVoted(s)
  {
    if !HasVoted(s) {
      assert AfterVote(s, o).total != s.total;
    }
  }

  /** Every vote, accepted or ignored, keeps total == sum of counts. */
  lemma VotePreservesValid(s: PollData, o: OptionId)
    requires Valid(s)
    ensures Valid(AfterVote(s, o))
  {
    if !HasVoted(s) {
      SumUpdate(s.votes, Key(o), Count(s.votes, o) + 1);
    }
  }

  /** After an accepted vote with a non-empty option id, every further vote is
      a no-op. */
  lemma SecondVoteIsNoop(s: PollData, o: OptionId, p: OptionId)
    requires o.Attr? && o.text != ""
    ensures AfterVote(AfterVote(s, o), p) == AfterVote(s, o)
  {
  }

  /** A vote whose option id is empty or missing is recorded but does not
      block the next one: two such clicks add two votes. */
  lemma FalsyChoiceDoesNotBlock(s: PollData, o: OptionId, p: OptionId)
    requires !HasVoted(s)
    requires o == Undefined || o == Attr("")
    ensures AfterVote(s, o).userVote == Chosen(o)
    ensures AfterVote(AfterVote(s, o), p).total == s.total + 2
  {
  }

  /** Under the tally invariant no option has more votes than there are
      participants. */
  lemma CountAtMostTotal(s: PollData, o: OptionId)
    requires Valid(s)
    ensures Count(s.votes, o) <= s.total
  {
    if Key(o) in s.votes {
      EntryAtMostSum(s.votes, Key(o));
    }
  }

  // ---------------------------------------------------------------------
  // The record as mutable state

  /** The `pollData` object that the click handler updates in place. */
  class Poll {
    var votes: map<string, nat>
    var total: nat
    var userVote: UserVote

    function Data(): PollData
      reads this
    {
      PollData(votes, total, userVote)
    }

    /** The record created when nothing is saved for the poll. */
    constructor ()
      ensures Data() == Empty()
      ensures Valid(Data())
    {
      votes, total, userVote := map[], 0, Null;
    }

    /** A record restored from the saved data, assumed well-formed JSON. */
    constructor Restore(saved: PollData)
      ensures Data() == saved
    {
      votes, total, userVote := saved.votes, saved.total, saved.userVote;
    }

    /** The click handler on option `o`; `accepted` tells whether the vote
        was recorded (the handler returns early otherwise). */
    method Vote(o: OptionId) returns (accepted: bool)
      modifies this
      ensures accepted <==> !HasVoted(old(Data()))
      ensures Data() == AfterVote(old(Data()), o)
      ensures accepted ==> Count(votes, o) == Count(old(votes), o) + 1
      ensures forall k :: k in old(votes) && k != Key(o) ==> k in votes && votes[k] == old(votes)[k]
      ensures !accepted ==> votes == old(votes) && total == old(total) && userVote == old(userVote)
      ensures old(Valid(Data())) ==> Valid(Data())
    {
      if userVote.Chosen? && userVote.id.Attr? && userVote.id.text != "" {
        return false;
      }
      if Valid(Data()) {
        VotePreservesValid(Data(), o);
      }
      var key := Key(o);
      votes := votes[key := (if key in votes then votes[key] else 0) + 1];
      total := total + 1;
      userVote := Chosen(o);
      accepted := true;
    }
  }
}
