/**
 * The messages carried over the live socket connection, as values rather
 * than JSON text. Server to client: NewPoll and VoteUpdate. Client to
 * server: Vote. Other stands for a message whose `type` is anything else;
 * it carries no vote fields.
 */
module Protocol {
  import opened Polls

  datatype Message =
    | NewPoll(pollId: PollId, poll: Poll)
    | VoteUpdate(pollId: PollId, updatedOptions: seq<PollOption>)
    | Vote(pollId: PollId, selectedOption: string)
    | Other(kind: string)
}
