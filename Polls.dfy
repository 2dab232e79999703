/**
 * The poll record (a question and an ordered list of options, each an
 * answer text with a vote counter) and the pure steps that the server
 * applies to it: turning submitted option texts into fresh options, and
 * raising the counter of the first option whose answer matches a vote.
 */
module Polls {
  import opened Wrappers

  /** The store's opaque identifier of a saved poll. */
  type PollId = string

  /** One entry of a poll's option list; the counter starts at 0. */
  datatype PollOption = PollOption(answer: string, votes: nat)

  datatype Poll = Poll(question: string, options: seq<PollOption>)

  /** The answer texts of an option list, in order. */
  function Answers(opts: seq<PollOption>): (r: seq<string>)
    ensures |r| == |opts|
    ensures forall i :: 0 <= i < |opts| ==> r[i] == opts[i].answer
  {
    if opts == [] then [] else [opts[0].answer] + Answers(opts[1..])
  }

  /** The sum of all vote counters of an option list. */
  function TotalVotes(opts: seq<PollOption>): (total: nat)
  {
    if opts == [] then 0 else opts[0].votes + TotalVotes(opts[1..])
  }

  /**
   * Each submitted option text becomes an option with that answer and no
   * votes, in the submitted order.
   */
  function FormatOptions(raw: seq<string>): (r: seq<PollOption>)
    ensures |r| == |raw|
    ensures forall i :: 0 <= i < |raw| ==> r[i].answer == raw[i] && r[i].votes == 0
  {
    if raw == [] then [] else [PollOption(raw[0], 0)] + FormatOptions(raw[1..])
  }

  /** i is the position of the first option whose answer is `answer`. */
  ghost predicate IsFirstMatch(opts: seq<PollOption>, answer: string, i: int)
  {
    0 <= i < |opts| && opts[i].answer == answer &&
    forall j :: 0 <= j < i ==> opts[j].answer != answer
  }

  /** The first option with the given answer, as `Array.prototype.find` picks it. */
  function FindFirst(opts: seq<PollOption>, answer: string): (r: Option<nat>)
    ensures r.Some? ==> IsFirstMatch(opts, answer, r.value)
    ensures r.None? ==> forall j :: 0 <= j < |opts| ==> opts[j].answer != answer
  {
    if opts == [] then None
    else if opts[0].answer == answer then Some(0)
    else
      match FindFirst(opts[1..], answer)
      case None => None
      case Some(k) =>
        assert forall j :: 1 <= j <= k ==> opts[j].answer == opts[1..][j - 1].answer;
        Some(k + 1)
  }

  /** The option list with the counter at position i raised by one. */
  function AddVote(opts: seq<PollOption>, i: nat): (r: seq<PollOption>)
    requires i < |opts|
    ensures |r| == |opts| && Answers(r) == Answers(opts)
    ensures r[i].votes == opts[i].votes + 1
    ensures forall j :: 0 <= j < |opts| && j != i ==> r[j] == opts[j]
  {
    var r := opts[i := opts[i].(votes := opts[i].votes + 1)];
    assert forall j :: 0 <= j < |opts| ==> Answers(r)[j] == Answers(opts)[j];
    r
  }

  /**
   * The in-memory part of a vote: find the first option whose answer is
   * `selected` and raise its counter; None when no option has that answer.
   */
  function CastVote(p: Poll, selected: string): (r: Option<Poll>)
    ensures r.None? <==> forall j :: 0 <= j < |p.options| ==> p.options[j].answer != selected
    ensures r.Some? ==> r.value.question == p.question && Answers(r.value.options) == Answers(p.options)
  {
    match FindFirst(p.options, selected)
    case None => None
    case Some(i) => Some(p.(options := AddVote(p.options, i)))
  }

  /** A freshly formatted option list has the submitted answers and no votes. */
  lemma {:induction false} FormatOptionsFresh(raw: seq<string>)
    ensures Answers(FormatOptions(raw)) == raw
    ensures TotalVotes(FormatOptions(raw)) == 0
  {
    if raw != [] {
      FormatOptionsFresh(raw[1..]);
      assert FormatOptions(raw)[1..] == FormatOptions(raw[1..]);
    }
  }

  /** Raising one counter raises the total by exactly one. */
  lemma {:induction false} AddVoteTotal(opts: seq<PollOption>, i: nat)
    requires i < |opts|
    ensures TotalVotes(AddVote(opts, i)) == TotalVotes(opts) + 1
  {
    var r := AddVote(opts, i);
    if i == 0 {
      assert r[1..] == opts[1..];
    } else {
      AddVoteTotal(opts[1..], i - 1);
      assert r[1..] == AddVote(opts[1..], i - 1);
    }
  }

  /**
   * A vote for an answer that some option has raises the FIRST such
   * option by one and changes nothing else of the poll.
   */
  lemma VoteRaisesFirstMatch(p: Poll, selected: string, i: int)
    requires IsFirstMatch(p.options, selected, i)
    ensures CastVote(p, selected).Some?
    ensures var q := CastVote(p, selected).value;
      q.question == p.question && |q.options| == |p.options| &&
      Answers(q.options) == Answers(p.options) &&
      q.options[i].votes == p.options[i].votes + 1 &&
      forall j :: 0 <= j < |p.options| && j != i ==> q.options[j] == p.options[j]
  {
  }

  /** A successful vote raises the poll's total by exactly one. */
  lemma VoteTotal(p: Poll, selected: string)
    requires CastVote(p, selected).Some?
    ensures TotalVotes(CastVote(p, selected).value.options) == TotalVotes(p.options) + 1
  {
    AddVoteTotal(p.options, FindFirst(p.options, selected).value);
  }
}
