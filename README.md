# qanda broadcast engine in Dafny

This project models the server core of the qanda real-time Q&A service and proves
properties of it:

- the threaded message tree of each topic;
- the user, topic and message records, with their class-level id counters;
- the validator for inbound messages and the older per-process message tree in `message.py`;
- the dispatcher `BackEnd`. It loads the stored topics, creates topics, registers users,
  fans `newhandle`, `fulltree` and `removehandle` messages out when a user joins or leaves
  a topic, and authenticates inbound messages.

Files (one module each):

- `values.dfy` (`Values`): the values a decoded message holds, the Python exceptions the core
  raises, and `Result`/`Outcome`/`Option`.
  - A lookup of a message value in a dict keyed by integers follows Python: `True`, `1` and
    `1.0` find the same entry, a list or dict raises `TypeError`, anything else that equals
    no key raises `KeyError` carrying the value.
  - A raised exception is a value here. A method that raises returns `Raised(e)` and
    leaves behind whatever state the Python code had already changed.
- `threads.dfy` (`Threads`): the tree value `Tree(rootnodes, children, messages)` and
  `Attach`, the step both message trees take to add one node.
- `models.dfy` (`Models`):
  - `Registry`: the class counters `User.nusers`, `Topic.ntopics` and `Message.nmessages`,
    as one object.
  - `Message`, and the classes `User`, `MessageTree` and `Topic`.
  - The default handle, the slug, and the membership algebra of `Topic.users`/`nusers`.
  - The forest invariants, and loading a list of messages.
- `message.dfy` (`Protocol`):
  - the protocol constants and `validate_message`;
  - `to_json`;
  - the global `_MESSAGE_ID` counter (`NodeIds`);
  - the seeded legacy `MessageTree` (`LegacyTree`);
  - `message_response` and the `CALLBACKS` table.
- `fanout.dfy` (`Fanout`): outbound messages and their payloads, plus reference
  definitions of who each fan-out loop reaches. It proves who receives what, how many
  times and in which order.
- `backend.dfy` (`Backend`): start-up loading from the store, inbound dispatch, and the
  class `BackEnd`.
  - `users` and `topics` are maps the methods reassign.
  - `outbox` is the sequence of every message handed to a socket, in send order.

Each fan-out loop of `set_topic_for_user` and `remove_user` is proved against the function
`Reach`. `Reach` gives the recipients the loop gets to and how the loop ends.
`ReachIsPrefix` then characterises those recipients: the other members in member order, up
to the first one that is no longer registered. For that member the Python code raises
`KeyError`.

Behaviour of the code that the model keeps:

- `validate_message` checks only `mtype` and `id` (in that order) and the kind. The token is
  read afterwards, and a missing token raises `KeyError`. It is not a validation error.
- `CALLBACKS` holds only `response`. Its handler is written against an older interface
  (`wshandler.listeners`, `wshandler.message_tree`), so on the dispatcher it raises
  `AttributeError`. Every other allowed kind raises `KeyError` on the table.
  - `on_message` therefore never changes state.
  - `response` is the only kind a client can send that has a handler; `test` and the
    server-to-client kinds are accepted by the validator and then raise on the table.
- Joining a topic does not leave the previous one. A user who joins a second topic stays a
  member of the first. The id of a user that has since disconnected stays in that topic's
  members, so a later join or leave there raises `KeyError` when its loop reaches that id.
- `Topic.users` is a dictionary used as a set of member ids. Python 2 does not specify the
  order in which a dict is iterated. The model keeps the members as a sequence without
  duplicates, in joining order, next to the separate `nusers` count.

## Model

| member | source | states |
|---|---|---|
| Values.IntKey | backend.py:127 | the integer a message value finds as a dict key is exactly the one it equals under Python's `==`: a bool counts as 0 or 1 and a float by its value; strings, `None`, lists and dicts stand for none |
| Values.Subscript | backend.py:127 | `d[v]` on a dict keyed by integers reads an entry exactly when `v` is hashable and equals one of its keys, and then that key; otherwise `TypeError` for a list or dict and `KeyError(v)` for anything else |
| Models.Registry.constructor | models.py:20 | all three class counters start at zero |
| Models.Registry.NewMessage | models.py:79-92 | the id is the message counter unless one is given, the topic id defaults to `NOID`, a missing post time is the current time; the counter goes up by one in every case, the other counters are unchanged |
| Models.DecimalRoundTrip | models.py:24 | the decimal text of an id parses back to that id |
| Models.UserHandle | models.py:24 | the default handle is `user` followed by at least one more character, the id's digits |
| Models.DefaultHandleNamesUser | models.py:24 | the default handle is `user` followed by the decimal digits of the id, which parse back to the id; two ids share a handle exactly when they are equal |
| Models.User.constructor | models.py:22-28 | the new user's id is the user count before it, the handle is the default handle, the token is the given one, the topic is `NO_TOPIC`; the user count goes up by one and the other counters are unchanged |
| Models.Slug | models.py:49 | the slug has the name's length and, position by position, a dash for each space and the name's character elsewhere |
| Models.SlugHasNoSpace | models.py:49 | a slug contains no space, and every character of the name other than a space is kept in place |
| Models.SlugsCollide | models.py:49 | two different names (`a b`, `a-b`) share one slug |
| Models.Without | models.py:68 | deleting a key keeps every other member and drops that one, and keeps the members distinct |
| Models.WithoutAbsent | models.py:68 | deleting a key that is not there changes nothing |
| Models.WithoutPresent | models.py:68 | deleting a present key from distinct members shortens them by exactly one |
| Models.Join | models.py:59-62 | `add_user` always raises `nusers` by one; the member is present afterwards and nobody else is added; a new member goes last, an existing member leaves the list as it was |
| Models.Leave | models.py:67-69 | `remove_user` fails with `KeyError(uid)` exactly when `uid` is not a member; otherwise `uid` is gone, every other member stays, and `nusers` goes down by one |
| Models.JoinThenLeave | models.py:59-69 | adding a non-member and removing it again restores both the members and the count |
| Models.JoinInStep | models.py:59-62 | starting from `nusers` equal to the number of members, `add_user` keeps them equal exactly when the id was not already a member |
| Models.LeaveInStep | models.py:67-69 | removing a present member keeps `nusers` equal to the number of members |
| Threads.Attach | models.py:114-124 | adding a node fails with `KeyError(parent)` exactly when the parent is neither the root sentinel nor a key of `children`; otherwise the id is appended to the root list or to the parent's child list, it gets an empty child list and a node entry, and no other list or node changes |
| Models.AttachConsistent | models.py:114-124 | adding a node keeps every child id a node and every node's parent the root sentinel or a key of `children` |
| Models.AttachForest | models.py:114-124 | adding a node with a new id keeps the tree a forest in arrival order: every node's parent is the root sentinel or arrived before it |
| Models.ChainToRoot | models.py:114-124 | in a forest, following parents from any node ends at a root node after at most as many steps as nodes arrived before it |
| Models.AddAll | models.py:111-112 | the reference definition of the loading loop: `Attach` message by message in list order, stopping at the first failure; the failure is a `KeyError` for a parent id other than the root sentinel |
| Models.AddAllLoads | models.py:111-112 | a list whose parents come first and whose ids are distinct, new and never the root sentinel -1 loads in full: every message is a node, the root list and each child list are the listed ids in list order, and the node count grows by the list's length |
| Models.AddAllStopsAtFailure | models.py:111-112 | once a prefix of the list fails on an unknown parent, the whole list fails with the same error |
| Models.MessageTree.constructor | models.py:101-109 | a new tree is empty, consistent and a forest |
| Models.MessageTree.GetAllMessages | models.py:126-129 | the root order, the child lists and the nodes, as one tree value; `Valid` and `IsForest` state the consistency and forest invariants over it |
| Models.MessageTree.AddMessage | models.py:114-124 | the tree becomes `Attach` of the old tree, or stays unchanged and the call raises `KeyError(parent)`; arrival order records the id; consistency is kept, and so is the forest for a new id |
| Models.MessageTree.AddMessages | models.py:111-112 | the messages are added in list order, stopping at the first unknown parent with that error; consistency is kept |
| Models.Topic.Stored | backend.py:22-25 | a topic as the store builds it: `Topic(name, id)` (the topic counter goes up, no members, an empty tree) that also carries an `id` equal to its `topicid` |
| Models.Topic.constructor | models.py:43-57 | the id is the topic counter unless one is given, the slug is the name's, there are no members, the count is zero, the tree is new and empty, and there is no `id` attribute; the topic counter goes up by one in every case |
| Models.Topic.AddUser | models.py:59-62 | the members become `Join` of the old ones; the tree is unchanged |
| Models.Topic.AddMessage | models.py:64-65 | delegates to the tree: `Attach` of the old tree, or `KeyError(parent)` with the tree unchanged |
| Models.Topic.RemoveUser | models.py:67-69 | the members become `Leave` of the old ones, or the call raises `KeyError(uid)` and nothing changes |
| Models.Topic.GetAllMessages | models.py:71-72 | the topic's snapshot is its tree's `GetAllMessages` |
| Protocol.FirstMissing | message.py:124-126 | the first required key, in list order, that the dict lacks; none exactly when all are present |
| Protocol.Validation | message.py:124-129 | a dict passes exactly when it has `mtype` and `id` and its kind is one of the allowed kinds |
| Protocol.ValidationOrder | message.py:124-129 | a missing `mtype` is reported before a missing `id`; with both present, the dict is valid exactly when the kind is allowed, and otherwise the kind is reported |
| Protocol.ValidateMessage | message.py:112-129 | the loop returns normally exactly when `Validation` finds nothing, and otherwise raises `InvalidMessageError` with the first problem; the dict is not modified |
| Protocol.ToJson | message.py:50-57 | a node encodes to exactly the keys `user`, `message`, `id` and `parentid`; anything else raises `TypeError` |
| Protocol.ToJsonRoundTrip | message.py:50-55 | decoding the encoding of a node gives the node back |
| Protocol.NodeIds.constructor | message.py:60 | the global message id starts at zero |
| Protocol.NodeIds.NewNode | message.py:64-71 | a node takes the current global id, and the counter goes up by exactly one |
| Protocol.LegacyTree.constructor | message.py:76-90 | a new legacy tree holds exactly two root nodes by `admin`, the coffee question and then the bananas question, with consecutive ids; the counter advances by two |
| Protocol.ParentKey | message.py:95-98 | a parent id equal to -1 under Python's `==` (`-1.0` too) files the node at the root; otherwise the child list of the key it equals, if it is hashable and some key equals it, else `KeyError(parentid)` or, for a list or dict, `TypeError` |
| Protocol.LegacyTree.GetAllMessages | message.py:104-107 | the root order, the child lists and the nodes, as one tree value |
| Protocol.LegacyTree.AddMessage | message.py:92-102 | the node is made first, so the id counter goes up by one even when the parent is unknown; when `ParentKey` finds where the node goes it is attached there by `Attach`, otherwise the call raises `ParentKey`'s error and the tree is unchanged |
| Protocol.Sender | message.py:40 | `listeners[msg["id"]]` finds a listener exactly when `id` is present, hashable and equal to a listener's key (`true` and `1.0` find listener 1); a missing `id` raises `KeyError("id")`, an unknown one `KeyError` with the value |
| Protocol.MessageResponse | message.py:37-45 | looks the sender up as `Sender` says, reads `replyid` and `text` (`KeyError` if absent), adds the reply where `ParentKey` places it and broadcasts one `newmessage` carrying the new node; each failure raises and, before the tree is reached, changes nothing |
| Protocol.Callbacks | message.py:48 | `CALLBACKS` has an entry exactly for `response` |
| Fanout.Kind | message.py:34-35 | every payload the dispatcher sends has an allowed kind, never `response` or `test` |
| Fanout.ReceivedAppend | backend.py:136-146 | what a recipient receives from two batches of sends is what it receives from the first followed by what it receives from the second |
| Fanout.Others | backend.py:50-51 | the members other than the joiner or leaver, in member order; distinct when the members are |
| Fanout.OthersAppend | backend.py:50-51 | filtering out one id distributes over concatenation |
| Fanout.Fan | backend.py:63-67 | one message per listed id, in list order, each to that id with the same payload |
| Fanout.Roster | backend.py:50-55 | one message per listed id, in list order, all to the joiner, each carrying that id and its handle |
| Fanout.Reach | backend.py:50-108 | the reference definition of the fan-out loops at lines 50-55, 63-67 and 104-108: the recipients it reaches in member order and how it ends, which is a `KeyError` when it stops; `ReachIsPrefix` and `ReachCompletes` characterise it |
| Fanout.ReachStops | backend.py:50-55 | once the loop has raised on a prefix of the members, the remaining members change nothing |
| Fanout.ReachIsPrefix | backend.py:50-55 | a fan-out loop reaches exactly the other members in member order up to the first one that is not registered, and raises `KeyError` for that member if there is one |
| Fanout.ReachCompletes | backend.py:50-55 | the loop runs to the end exactly when every other member is registered, and then it has reached all of them |
| Fanout.RegisteredPrefix | backend.py:52 | every id the roster loop reaches before stopping has a handle |
| Fanout.FanReceived | backend.py:63-67 | a fan-out to distinct ids delivers exactly one copy of the payload to each listed id and nothing to anyone else |
| Fanout.RosterReceived | backend.py:50-55 | the roster goes to the joiner only: the handle of each listed member, in order |
| Fanout.JoinSends | backend.py:49-67 | everything a complete join sends: one message per other member to the joiner, then the tree to the joiner at position `len(others)`, then one per other member; `JoinDelivery` states who receives what |
| Fanout.JoinDelivery | backend.py:46-67 | a complete join gives the joiner the handle of every other member in member order and then exactly one `fulltree`, never its own handle; it gives each other member exactly one `newhandle` for the joiner, and nothing to anyone else |
| Fanout.DepartureDelivery | backend.py:104-108 | a complete departure gives each other member exactly one `removehandle` for the leaver, and nothing to the leaver or to anyone outside the topic |
| Backend.Hydrate | backend.py:22-25 | the reference definition of start-up loading: each stored topic's messages loaded with `AddAll`, filed under its id, later ids replacing earlier ones; a failure is a `KeyError` for a parent id other than the root sentinel |
| Backend.HydrateStopsAtFailure | backend.py:22-25 | the first stored list that cannot be loaded aborts start-up with its error |
| Backend.HydrateSucceeds | backend.py:22-25 | start-up succeeds when every stored list has its parents first and distinct new ids |
| Backend.HydrateKeys | backend.py:22-25 | after a successful start-up there is one topic per distinct stored id |
| Backend.HydrateKeepsLast | backend.py:25 | the topic filed under a stored id is the last stored topic with that id, with that topic's messages loaded |
| Backend.HydrateLoads | backend.py:22-25 | for loadable stored lists, start-up succeeds with one topic per stored id; each holds the name of the last stored topic with that id and all of its messages |
| Backend.OpenStored | backend.py:24 | a stored topic becomes a new topic with the stored id as both `topicid` and `id`, the stored name and no members, whose tree is the stored messages loaded in order, or the loading error; the topic counter goes up |
| Backend.BackEnd.constructor | backend.py:14-20 | a dispatcher starts with no users, no topics and nothing sent |
| Backend.BackEnd.Load | backend.py:22-25 | the loading loop ends as `Hydrate` does: on success the topics are exactly `Hydrate`'s, by id (each carrying it as `id` too), name, slug, tree and no members; otherwise it raises `Hydrate`'s error |
| Backend.BackEnd.LoadOne | backend.py:24-25 | one pass files the loaded topic under its stored id, replacing any topic filed there before |
| Backend.BackEnd.HasTopicNamed | backend.py:30-32 | true exactly when some topic has the name |
| Backend.BackEnd.AddTopic | backend.py:27-37 | returns false and changes nothing (no counter, no topic, no user, no send) when a topic with that name exists; otherwise returns true and files a new empty topic with that name and slug, and without an `id` attribute, under the next topic id, changing no other entry or counter; the map grows by one when that id was free |
| Backend.BackEnd.AddTopicAsWritten | backend.py:33-34 | the code as written: with a new name it builds the topic (the topic counter goes up) and then raises `AttributeError` on `newt.id` before filing it; the other counters never move |
| Backend.BackEnd.FindTopicByUrl | backend.py:73-74 | finds a topic whose slug is the url, or reports that none has it |
| Backend.BackEnd.GetTopicIdFromUrl | backend.py:72-76 | the id of a topic whose slug is the url, or `NOID` when no topic has it |
| Backend.BackEnd.GetTopicIdFromUrlAsWritten | backend.py:72-76 | the code as written: a matching stored topic answers its `id`; a matching topic without one (built by `add_topic`) raises `AttributeError`; no match answers `NOID`; when every matching topic is a stored one it never raises |
| Backend.BackEnd.SendMessage | backend.py:136-146 | a send to a registered user appends exactly one stamped message to the outbox; a send to an unknown id raises `KeyError(id)` and sends nothing |
| Backend.BackEnd.SendMessageAsWritten | backend.py:136-139 | the code as written: a `fulltree` of a tree holding a message raises `TypeError` from `message.to_json` before anything is sent; any other payload is sent as `SendMessage` sends it |
| Backend.BackEnd.AddUser | backend.py:78-91 | registers exactly one new user under the next user id (only the user counter moves), with the default handle, the given token and no topic; sends that user, and only that user, one `myhandle` with its handle, id and token |
| Backend.BackEnd.SendRoster | backend.py:50-55 | the roster loop sends the joiner the handle of each other member the loop reaches, in member order, and ends as `Reach` says |
| Backend.BackEnd.SendToEach | backend.py:63-67 | the announcing loop sends the payload to each other member the loop reaches, in member order, and ends as `Reach` says |
| Backend.BackEnd.SetTopicForUser | backend.py:39-67 | an unknown user changes nothing and sends nothing (no user's topic or connection, no topic's members or tree); otherwise the user's topic is set first, so an unknown topic raises `KeyError` with the change kept; then the user joins (`Join`) and receives the roster; if the roster completes, the user then receives the topic's tree and each other member receives the joiner's handle |
| Backend.BackEnd.Welcome | backend.py:49-67 | the sends of a join, in order: the roster, then the tree to the joiner, then the joiner's handle to each other member, stopping at the first member that is not registered |
| Backend.BackEnd.WelcomeAsWritten | backend.py:49-67 | the code as written: the roster, then, for a tree holding a message, `TypeError` with nothing more sent, so no other member gets the joiner's handle; for an empty tree, the same sends as `Welcome` |
| Backend.BackEnd.FindUserByHandler | backend.py:95-100 | finds a registered user on the connection, or reports that none is on it |
| Backend.BackEnd.RemoveUser | backend.py:93-113 | an unknown connection changes nothing; otherwise the user's topic must exist (`KeyError`), each other member the loop reaches gets one `removehandle`; if the loop completes, the user leaves the topic (`Leave`, `KeyError` if not a member) and is unregistered; no other topic's members change and no topic's tree changes |
| Backend.Dispatch | backend.py:115-134 | the reference definition of `on_message` on a decoded dict: validate, read the token, look the claimed id up as `Subscript` says, drop a wrong token, then raise in the callback table; the three lemmas below characterise it |
| Backend.CompletedJoinDelivery | backend.py:46-67 | applied to the outbox `SetTopicForUser` and `Welcome` ensure for a join whose roster completes: the joiner receives the handle of every other member in member order and then the tree, never its own handle; each other member receives the joiner's handle once; nobody else receives anything |
| Backend.JoinDelta | backend.py:49-67 | what a completed join adds to the outbox is `JoinSends` to all the other members |
| Backend.CompletedDepartureDelivery | backend.py:102-108 | applied to the outbox `RemoveUser` ensures for a completed loop: each other member receives one `removehandle` for the leaver, and nobody else receives anything |
| Backend.DispatchValidatesFirst | backend.py:123 | an invalid message raises the validation error before the token is looked at |
| Backend.DispatchReturnsOnlyOnWrongToken | backend.py:126-131 | `on_message` returns normally exactly when a valid message carries a token and a hashable claimed id equal to a registered id, and the token is wrong for that id |
| Backend.DispatchBoolAndFloatIds | backend.py:126-131 | a claimed id of `true` or `1.0` with a wrong token for user 1 is dropped like a claim of `1` |
| Backend.DispatchAuthenticated | backend.py:133-134 | a message whose claimed id equals a registered id and whose token is right for it raises in the callback table: `AttributeError` inside the `response` callback, `KeyError` on the kind for every other kind |
| Backend.BackEnd.OnMessage | backend.py:115-134 | handling an inbound dict changes no state and sends nothing, and ends as `Dispatch` says |

## Left out

- JSON encoding and decoding (`json.loads`, `json.dumps`). `on_message` starts from a decoded
  dictionary, and a payload is recorded as a value, not as its encoded text.
- Timestamps: `time.time()*1000` and `datetime` become an integer parameter `now`. All sends of
  one event carry the same `now`; the source reads the clock once per send.
- Token generation (`uuid.uuid4`) becomes a parameter of `AddUser`. The websocket handler is an
  opaque integer connection id.
- `send_message` swallows `WebSocketClosedError` for a closed socket. The outbox therefore records
  every attempted send, delivered or not.
- The store (`db.py`) is not part of this model. `backend.py` calls `get_all_topics` and
  `get_all_messages_for_topic`, which the store classes do not define. The stored topics are an
  input sequence of `StoredTopic(id, name, messages)`: objects with the `id` and `name` that
  backend.py:24-25 reads, and the message records of that id.
- OpenStored: the store's topic objects must answer `add_user`, `users` and `urlname` later, and
  only `Topic` does, so each is taken to be a `Topic(name, id)` to which the store has also
  given an `id` attribute equal to its `topicid`. Building it raises the topic counter. The
  store code that would do this does not exist, so this is an assumption, not the source.
- `add_topic`'s write-through to the store (`self.db.add_topic`) is left out.
- `get_topics` (backend.py:69-70) returns a list of the topic objects, `self.topics.values()`; the
  model reads `topics` directly.
- Protocol.LegacyTree: the consistency and forest invariants (`Consistent`, `Forest`,
  `AttachConsistent`, `AttachForest`, `ChainToRoot`) are proved only for the tree of models.py,
  not for the legacy tree; both take their steps through the same `Attach`.
- `server.py`, the static JavaScript, `settings.py` and DEBUG printing are not part of this model.
- `message.K_AUTH` is not defined in `message.py`. The model gives the token key the name
  `auth_token`, the key `add_user` sends the token under.
- `backend.py` imports `to_json` from `models`, where it is not defined, so the import fails.
  With `message.to_json` in its place, a `fulltree` of a tree holding a message raises
  `TypeError` (see Findings). Backend.BackEnd.SendMessage, Welcome and SetTopicForUser model an
  encoder that accepts the tree's `Message` nodes; SendMessageAsWritten and WelcomeAsWritten
  model the `TypeError`.
- Fanout.Reach: the send order of the loops at backend.py:50, 63 and 104, and so the prefix of
  members a loop reaches before it raises `KeyError`, is the model's choice (joining order).
  Python 2 iterates `Topic.users` in an order it does not specify. Fanout.ReachIsPrefix,
  Fanout.Others, Backend.BackEnd.SendRoster and Backend.BackEnd.SendToEach state their orders
  for that chosen order only; which members are reached when every one is registered does not
  depend on it.
- Models.MessageTree.GetAllMessages, Models.Topic.GetAllMessages and
  Protocol.LegacyTree.GetAllMessages return the tree as a value. The source hands out its live
  lists and dicts, through which a caller could change the tree; no modelled caller does.
- Backend.BackEnd.GetTopicIdFromUrl: returns the id of some topic whose slug matches, not the first
  one in dictionary order, because the iteration order of a Python 2 dict is not specified.
  `add_topic` and `remove_user` search the maps in any order for the same reason.
- Values.Subscript: a JSON `NaN` or `Infinity` decodes to a float that equals no integer; the
  model keeps it as `VOther`. The contents of lists and dicts are not modelled, since they only
  ever raise `TypeError` as keys.
- Protocol.MessageResponse runs against the older handler interface it is written for
  (`WsHandler`, with `listeners` and the legacy tree). The dispatcher cannot reach it, because
  the dispatcher has no `listeners`.
- Message post times given as strings are parsed with `strptime` in the source. The model takes
  the post time as an opaque value.

## Findings

| source | as written | input that shows it | evidently intended | confidence | as-written member | corrected member |
|---|---|---|---|---|---|---|
| backend.py:58-60 | `to_json` is imported from models.py, which defines none; the only `to_json` (message.py:50-57) encodes `MessageNode`s and raises `TypeError` for anything else, and a topic tree holds `models.Message` nodes | joining a topic that holds one message: the roster is sent, then the `fulltree` send raises `TypeError`, and no other member receives the joiner's handle | an encoder that accepts the tree's `Message` nodes, so the join sends the tree and then the handle | not executed | Backend.BackEnd.WelcomeAsWritten | Backend.BackEnd.Welcome |
| backend.py:34 | `self.topics[newt.id] = newt` reads `id`, but a `Topic` has only `topicid` | `add_topic("Physics")` with no topic of that name raises `AttributeError` after the topic counter has gone up, and the topic is never filed | file the new topic under `newt.topicid` and return True | not executed | Backend.BackEnd.AddTopicAsWritten | Backend.BackEnd.AddTopic |
| backend.py:75 | `return t.id` for a matching topic; only a topic the store built carries `id`, and a topic `add_topic` files (once line 34 files it, under `topicid`) does not | `add_topic("Physics")` with line 34 corrected, then `get_topicid_from_url("Physics")` raises `AttributeError` | return `t.topicid`, which for a stored topic is the same id | not executed | Backend.BackEnd.GetTopicIdFromUrlAsWritten | Backend.BackEnd.GetTopicIdFromUrl |
