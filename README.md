# Live poll tally and socket registry

A Dafny model of the in-memory core of a real-time polling server
(`index.js`). The server keeps a list of connected sockets
(`connectedClients`). It creates polls from a question and a list of option
texts, stores them, and announces each new poll to every connected socket
with a `newPoll` message. It accepts `vote` messages over the sockets. A
vote raises the counter of the first option whose answer matches, saves the
poll and sends a `voteUpdate` with the new option list to every connected
socket, the voter's own included.

Modules:

- `Wrappers`: an `Option` datatype.
- `Polls`: the poll record, shaped after the schema in `models/Poll.js`.
  It holds the pure steps: formatting submitted option texts, the
  `Array.prototype.find` lookup, and raising one counter.
- `Registry`: the sequence operations behind the socket list. `Without` is
  the `filter` run on close. `Count` gives how often a socket is listed.
- `Protocol`: the socket messages as a datatype instead of JSON text.
- `Server`: a class `PollServer` with the socket list (`clients`), the poll store
  (`store`, a map from poll id to poll) and a per-socket outbox standing in
  for `client.send`. Its methods are the connect, close and message
  handlers, the poll-creation handler and `onNewVote`. Both broadcasts are
  one loop, `Broadcast`. `ExampleCreate` and `ExampleSession` are
  client methods that show what the contracts let a caller conclude about a
  short session with two sockets.

Each handler is one atomic step. The store's `save` either succeeds or fails
with nothing changed; the `saveOk` parameter says which. The id the store
gives a new poll is the `newId` parameter. Saving under an id that is
already in the store fails like any other failed save (a duplicate key).

## What the code does not do

`index.js` has none of the following, so the model has none of them either:

- There is no one-vote-per-user rule, no voter set and no user identity on
  a vote.
- There is no `createdBy` field.
- Poll creation does not check for at least two options, or for distinct or
  non-empty answers. If two options share an answer, a vote raises only the
  first of them.
- Vote failures are not reported. A missing poll makes `poll.options` throw,
  the handler catches and logs it, and nothing changes. An unknown answer
  also changes nothing.

## Model

| member | source | states |
|---|---|---|
| Polls.FormatOptions | index.js:110 | one option per submitted text, same count and order, each with that text as its answer and 0 votes |
| Polls.FormatOptionsFresh | index.js:110 | the formatted options' answers are exactly the submitted texts and their total vote count is 0 |
| Polls.FindFirst | index.js:143 | returns the position of the first option whose answer equals the selected text, or nothing when no option has it |
| Polls.AddVote | index.js:145 | the option at the given position gains exactly one vote; the answers, the length and every other option stay the same |
| Polls.AddVoteTotal | index.js:145 | raising one counter raises the total votes of the option list by exactly 1 |
| Polls.CastVote | index.js:143-145 | a vote changes the poll exactly when some option has the selected answer; the question and all answers are kept |
| Polls.VoteRaisesFirstMatch | index.js:143-145 | for the first matching position i, the vote raises option i by exactly 1 and leaves the question, answers, count, order and every other option unchanged |
| Polls.VoteTotal | index.js:143-146 | a successful vote raises the poll's total votes by exactly 1 |
| Registry.Without | index.js:44 | the filtered socket list no longer holds the closed socket and has no new entries |
| Registry.WithoutKeepsOthers | index.js:44 | closing one socket keeps every occurrence of every other socket |
| Registry.WithoutConcat | index.js:44 | filtering keeps the relative order: survivors of an earlier part stay before survivors of a later part |
| Registry.WithoutAbsent | index.js:44 | closing a socket that is not listed leaves the list unchanged |
| Registry.WithoutIdempotent | index.js:44 | closing the same socket twice gives the same list as closing it once |
| Registry.CountSnoc | index.js:30 | connecting adds exactly one occurrence of the new socket and none of any other |
| Registry.ConnectThenClose | index.js:30-44 | connecting a socket and then closing it leaves the others as they were before |
| Registry.CountDistinct | index.js:126-131 | when no socket is listed twice, each listed socket occurs once and any other socket not at all, so a broadcast reaches each listed socket exactly once |
| Registry.DistinctSnoc | index.js:30 | connecting an unlisted socket keeps the list free of repetitions |
| Registry.DistinctWithout | index.js:44 | closing a socket keeps the list free of repetitions |
| Server.SavedByVote | index.js:142-146 | a vote saves a poll exactly when the poll exists, some option has the selected answer and the save succeeds; the saved poll is the cast vote |
| Server.VoteStoreEffect | index.js:142-146 | a successful vote replaces only the voted poll: same keys, every other poll unchanged, same question and answers, total up by exactly 1 |
| Server.PollServer.constructor | index.js:26 | the registry starts empty and no socket has been sent anything |
| Server.PollServer.OnConnect | index.js:30 | the socket is appended to the end of the registry; earlier entries, the store and the outboxes are unchanged |
| Server.PollServer.OnClose | index.js:43-45 | the registry becomes the old one with that socket filtered out; the store and the outboxes are unchanged |
| Server.PollServer.Broadcast | index.js:126-155 | the `forEach` send loops of poll creation (lines 126-131) and of a vote (lines 149-155): every socket receives one copy of the message per time it is listed, appended after what it already had; nothing else changes |
| Server.PollServer.OnCreateNewPoll | index.js:120-137 | a successful save stores the poll under its new id and sends one newPoll with the saved poll to every registered socket; a failed save returns the error text and changes and sends nothing |
| Server.PollServer.CreatePoll | index.js:108-117 | on success the stored poll has the question, the submitted texts as answers in order and 0 votes each, and is announced to every registered socket; on failure the error text is returned and nothing changes |
| Server.PollServer.OnNewVote | index.js:140-160 | a successful vote stores the updated poll and sends one voteUpdate with the poll id and updated options to every registered socket; a missing poll, an unknown answer or a failed save changes nothing and sends nothing |
| Server.PollServer.OnMessage | index.js:32-40 | only a vote message runs the vote handling, with exactly its effect; every other message changes nothing |

## Left out

- HTTP routing, session checks, redirects and page rendering (index.js:15-24, 49-117) are plumbing. `CreatePoll` returns the error text that the handler would render and does not model the redirect.
- Signup and password hashing (index.js:64-89, models/User.js) are foreign crypto calls and database I/O. models/User.js is not part of this model.
- The MongoDB connection and persistence are modelled as a map and a save-outcome parameter. A malformed poll id, which makes the store's cast fail, behaves like a missing id: the error is caught and nothing changes.
- Store keys are compared as exact strings. In the source, `Poll.findById` (index.js:142) first casts the raw `pollId` to an ObjectId, so another spelling of a stored id (upper-case hex, say) or a non-string JSON value that casts to it finds the same poll; the `voteUpdate` then echoes the raw spelling (index.js:152). The model only finds a poll under its exact key, and the `Message` datatype carries only string ids.
- Mongoose's own fields (`_id` on each option, the version key) are not modelled. A poll's id is its key in the store.
- The lost-update race between concurrent votes across `await`s is a concurrency concern. Each handler is one atomic step.
- `JSON.parse` and `JSON.stringify` are replaced by the `Message` datatype. Malformed JSON, which throws in the socket handler, or a message that parses to `null`, whose `data.type` then throws at index.js:36, is not modelled. `Other` carries no vote fields. Even with type `vote`, such a message would look up an undefined poll id and have its error caught, so treating it as ignored gives the same effect.
- `Object.values` on something other than an array of strings, such as an object with keys or a single string, is not modelled. The model takes the option texts as a sequence.
- Socket transport and delivery failures of `client.send` are not modelled. Sending appends to the socket's outbox.
- Logging with `console.error` is left out.
- public/frontend.js (rendering, timers, reconnection) is browser UI and is not part of this model.
- A socket listed twice: `OnConnect` does not require the socket to be new, because the source pushes unconditionally. So the per-socket guarantees are stated per occurrence (`Count`). "Exactly once" follows via `Registry.CountDistinct` when no socket is listed twice, which holds whenever each connection is a fresh socket (`Registry.DistinctSnoc`, `Registry.DistinctWithout`).
- Polls.AddVote: vote counters are modelled as unbounded `nat`. In the source a counter is a JavaScript Number (a double), and `votes += 1` is exact only below 2^53; at 2^53 the increment leaves the counter unchanged. The "exactly 1" contracts of `Polls.AddVote`, `Polls.AddVoteTotal`, `Polls.VoteTotal` and `Server.VoteStoreEffect` hold for the source only while every counter is below 2^53.
