/**
 * The server's live state: the list of connected sockets, the poll store
 * and, standing in for `client.send`, the messages each socket has been
 * sent so far. Each handler runs as one atomic step; the store's `save`
 * either succeeds or fails with nothing changed, and which one happens is
 * the `saveOk` parameter.
 */
module Server {
  import opened Wrappers
  import opened Polls
  import opened Registry
  import opened Protocol

  /** Identity of one socket; two sockets are the same only if their ids are. */
  type ClientId = nat

  /** The error text handed back when creating a poll fails. */
  const CreatePollError: string := "Error creating the poll, please try again"

  /**
   * The poll a vote saves, when it saves one: the poll must be in the
   * store, some option's answer must be `selected`, and the save must
   * succeed. None means the vote changes nothing.
   */
  function SavedByVote(store: map<PollId, Poll>, pollId: PollId, selected: string, saveOk: bool): (r: Option<Poll>)
    ensures r.Some? <==>
      saveOk && pollId in store &&
      exists j :: 0 <= j < |store[pollId].options| && store[pollId].options[j].answer == selected
    ensures r.Some? ==> r == CastVote(store[pollId], selected)
  {
    if saveOk && pollId in store then CastVote(store[pollId], selected) else None
  }

  /** What an outbox map holds for socket c; nothing when it has no entry. */
  function Inbox(outbox: map<ClientId, seq<Message>>, c: ClientId): (msgs: seq<Message>)
  {
    if c in outbox then outbox[c] else []
  }

  /**
   * One step of a broadcast, for one socket c: if c has so far received one
   * copy of m per occurrence in the visited prefix, then after m is sent to
   * the next socket it has one copy per occurrence in the longer prefix.
   */
  lemma DeliverStepAt(start: map<ClientId, seq<Message>>, before: map<ClientId, seq<Message>>,
                      prefix: seq<ClientId>, target: ClientId, m: Message, c: ClientId)
    requires Inbox(before, c) == Inbox(start, c) + Copies(m, Count(prefix, c))
    ensures Inbox(before[target := Inbox(before, target) + [m]], c)
            == Inbox(start, c) + Copies(m, Count(prefix + [target], c))
  {
    var after := before[target := Inbox(before, target) + [m]];
    CountSnoc(prefix, target, c);
    if c == target {
      CopiesSnoc(m, Count(prefix, c));
      assert Inbox(after, c) == Inbox(before, c) + [m];
    } else {
      assert Inbox(after, c) == Inbox(before, c);
    }
  }

  /** The same step for every socket at once. */
  lemma DeliverStep(start: map<ClientId, seq<Message>>, before: map<ClientId, seq<Message>>,
                    prefix: seq<ClientId>, target: ClientId, m: Message)
    requires forall c :: Inbox(before, c) == Inbox(start, c) + Copies(m, Count(prefix, c))
    ensures var after := before[target := Inbox(before, target) + [m]];
      forall c :: Inbox(after, c) == Inbox(start, c) + Copies(m, Count(prefix + [target], c))
  {
    forall c ensures Inbox(before[target := Inbox(before, target) + [m]], c)
                     == Inbox(start, c) + Copies(m, Count(prefix + [target], c)) {
      DeliverStepAt(start, before, prefix, target, m, c);
    }
  }

  /**
   * A successful vote replaces exactly one poll of the store: every other
   * poll keeps its value, the replaced one keeps its question and answers,
   * and its total rises by exactly one.
   */
  lemma VoteStoreEffect(store: map<PollId, Poll>, pollId: PollId, selected: string, saveOk: bool)
    requires SavedByVote(store, pollId, selected, saveOk).Some?
    ensures var after := store[pollId := SavedByVote(store, pollId, selected, saveOk).value];
      after.Keys == store.Keys &&
      (forall id :: id in store && id != pollId ==> after[id] == store[id]) &&
      after[pollId].question == store[pollId].question &&
      Answers(after[pollId].options) == Answers(store[pollId].options) &&
      TotalVotes(after[pollId].options) == TotalVotes(store[pollId].options) + 1
  {
    VoteTotal(store[pollId], selected);
  }

  class PollServer {
    /** `connectedClients`: the sockets in the order they connected. */
    var clients: seq<ClientId>
    /** The saved polls, by id. */
    var store: map<PollId, Poll>
    /** Everything sent to each socket, oldest first. */
    var outbox: map<ClientId, seq<Message>>

    /** The messages sent to socket c so far. */
    function Sent(c: ClientId): (msgs: seq<Message>)
      reads this`outbox
    {
      Inbox(outbox, c)
    }

    /** Start with no sockets and whatever the store already holds. */
    constructor (saved: map<PollId, Poll>)
      ensures clients == [] && store == saved
      ensures forall c :: Sent(c) == []
    {
      clients := [];
      store := saved;
      outbox := map[];
    }

    /** A socket connects: it is appended to the registry. */
    method OnConnect(c: ClientId)
      modifies this
      ensures clients == old(clients) + [c]
      ensures store == old(store) && outbox == old(outbox)
    {
      clients := clients + [c];
    }

    /** A socket closes: every occurrence of it is filtered out of the registry. */
    method OnClose(c: ClientId)
      modifies this
      ensures clients == Without(old(clients), c)
      ensures store == old(store) && outbox == old(outbox)
    {
      clients := Without(clients, c);
    }

    /**
     * Send m to every registered socket, in registry order. A socket that
     * is registered k times receives k copies; no other socket receives
     * anything.
     */
    method Broadcast(m: Message)
      modifies this`outbox
      ensures forall c :: Sent(c) == old(Sent(c)) + Copies(m, Count(clients, c))
    {
      ghost var start := outbox;
      var i := 0;
      while i < |clients|
        invariant 0 <= i <= |clients|
        invariant forall c :: Inbox(outbox, c) == Inbox(start, c) + Copies(m, Count(clients[..i], c))
      {
        var target := clients[i];
        ghost var before := outbox;
        outbox := outbox[target := Inbox(outbox, target) + [m]];
        assert clients[..i + 1] == clients[..i] + [target];
        DeliverStep(start, before, clients[..i], target, m);
        i := i + 1;
      }
      assert clients[..i] == clients;
    }

    /**
     * Save a poll with the given question and options under the id the
     * store assigns, then tell every registered socket about it. When the
     * save fails (including a clash with an id already in the store)
     * nothing changes and the error text is returned.
     */
    method OnCreateNewPoll(question: string, pollOptions: seq<PollOption>, newId: PollId, saveOk: bool)
      returns (error: Option<string>)
      modifies this
      ensures error.None? <==> saveOk && newId !in old(store)
      ensures error.Some? ==> error.value == CreatePollError
      ensures clients == old(clients)
      ensures error.None? ==>
        store == old(store)[newId := Poll(question, pollOptions)] &&
        forall c :: Sent(c) == old(Sent(c)) + Copies(NewPoll(newId, Poll(question, pollOptions)), Count(clients, c))
      ensures error.Some? ==> store == old(store) && outbox == old(outbox)
    {
      var newPoll := Poll(question, pollOptions);
      if saveOk && newId !in store {
        store := store[newId := newPoll];
        Broadcast(NewPoll(newId, newPoll));
        error := None;
      } else {
        error := Some(CreatePollError);
      }
    }

    /**
     * The poll-creation form handler: format the submitted option texts,
     * then create the poll. The returned text, if any, is the error shown
     * on the form.
     */
    method CreatePoll(question: string, rawOptions: seq<string>, newId: PollId, saveOk: bool)
      returns (errorMessage: Option<string>)
      modifies this
      ensures errorMessage.None? <==> saveOk && newId !in old(store)
      ensures errorMessage.Some? ==> errorMessage.value == CreatePollError
      ensures clients == old(clients)
      ensures errorMessage.None? ==>
        newId in store && store == old(store)[newId := store[newId]] &&
        store[newId].question == question &&
        Answers(store[newId].options) == rawOptions &&
        (forall i :: 0 <= i < |rawOptions| ==> store[newId].options[i].votes == 0) &&
        forall c :: Sent(c) == old(Sent(c)) + Copies(NewPoll(newId, store[newId]), Count(clients, c))
      ensures errorMessage.Some? ==> store == old(store) && outbox == old(outbox)
    {
      var formattedOptions := FormatOptions(rawOptions);
      FormatOptionsFresh(rawOptions);
      errorMessage := OnCreateNewPoll(question, formattedOptions, newId, saveOk);
    }

    /**
     * A vote: look the poll up, raise the first option whose answer is
     * `selected`, save, and send the new option list to every registered
     * socket, the voter's own included. A missing poll, an unknown answer
     * or a failed save changes nothing and sends nothing.
     */
    method OnNewVote(pollId: PollId, selected: string, saveOk: bool)
      modifies this
      ensures clients == old(clients)
      ensures var saved := SavedByVote(old(store), pollId, selected, saveOk);
        if saved.Some? then
          store == old(store)[pollId := saved.value] &&
          forall c :: Sent(c) == old(Sent(c)) + Copies(VoteUpdate(pollId, saved.value.options), Count(clients, c))
        else
          store == old(store) && outbox == old(outbox)
    {
      if pollId in store {
        var poll := store[pollId];
        var found := FindFirst(poll.options, selected);
        if found.Some? {
          var updated := poll.(options := AddVote(poll.options, found.value));
          if saveOk {
            store := store[pollId := updated];
            Broadcast(VoteUpdate(pollId, updated.options));
          }
        }
      }
    }

    /** An inbound socket message: only a vote is acted on, anything else is ignored. */
    method OnMessage(msg: Message, saveOk: bool)
      modifies this
      ensures clients == old(clients)
      ensures !msg.Vote? ==> store == old(store) && outbox == old(outbox)
      ensures msg.Vote? ==>
        var saved := SavedByVote(old(store), msg.pollId, msg.selectedOption, saveOk);
        if saved.Some? then
          store == old(store)[msg.pollId := saved.value] &&
          forall c :: Sent(c) == old(Sent(c)) + Copies(VoteUpdate(msg.pollId, saved.value.options), Count(clients, c))
        else
          store == old(store) && outbox == old(outbox)
    {
      if msg.Vote? {
        OnNewVote(msg.pollId, msg.selectedOption, saveOk);
      }
    }
  }

  /**
   * Two sockets watch while a poll with two answers is created: both
   * receive it once, with both counters at 0.
   */
  method ExampleCreate() returns (server: PollServer, p: Poll)
    ensures fresh(server) && server.clients == [1, 2] && server.store == map["p1" := p]
    ensures Answers(p.options) == ["Red", "Blue"]
    ensures p.options[0].votes == 0 && p.options[1].votes == 0
    ensures server.Sent(1) == [NewPoll("p1", p)] && server.Sent(2) == [NewPoll("p1", p)]
  {
    server := new PollServer(map[]);
    server.OnConnect(1);
    server.OnConnect(2);
    var err := server.CreatePoll("Favorite color?", ["Red", "Blue"], "p1", true);
    p := server.store["p1"];
    assert Count([1, 2], 1) == 1 && Count([1, 2], 2) == 1 by {
      CountSnoc([1], 2, 1);
      CountSnoc([1], 2, 2);
    }
    assert Copies(NewPoll("p1", p), 1) == [NewPoll("p1", p)];
  }

  /**
   * A vote for "Blue" on that poll raises "Blue" alone, and the update
   * reaches the voter's socket too. After the second socket closes, a vote
   * for an answer the poll lacks changes nothing.
   */
  method ExampleSession() {
    var server, p := ExampleCreate();
    server.OnMessage(Vote("p1", "Blue"), true);
    assert Answers(p.options)[1] == "Blue" && Answers(p.options)[0] == "Red";
    VoteRaisesFirstMatch(p, "Blue", 1);
    var q := server.store["p1"];
    assert q.options[1].votes == 1 && q.options[0].votes == 0;
    assert Count([1, 2], 2) == 1 by { CountSnoc([1], 2, 2); }
    assert Copies(VoteUpdate("p1", q.options), 1) == [VoteUpdate("p1", q.options)];
    assert server.Sent(2) == [NewPoll("p1", p), VoteUpdate("p1", q.options)];

    server.OnClose(2);
    assert server.clients == [1];
    server.OnMessage(Vote("p1", "Green"), true);
    assert server.store["p1"] == q;
  }
}
