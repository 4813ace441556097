/** The dispatcher (`BackEnd` in backend.py): the registered users and the topics by
    id, topic creation and lookup, connect, join, disconnect and inbound handling. Every
    message handed to a socket is appended to `outbox`. */
module Backend {
  import opened Values
  import opened Threads
  import opened Models
  import opened Protocol
  import opened Fanout

  /** A topic as the store hands it back at start-up: its id, its name and its stored
      messages in store order. */
  datatype StoredTopic = StoredTopic(id: int, name: string, messages: seq<Message>)

  /** The topics start-up builds from the store, keyed by id: each one's name and the
      tree its messages load into. A later stored topic with the same id replaces an
      earlier one; the first list that cannot be loaded aborts start-up. */
  function Hydrate(stored: seq<StoredTopic>): (r: Result<map<int, (string, Tree<Message>)>>)
    ensures r.Err? ==> r.exc.KeyError? && r.exc.key.VInt? && r.exc.key.i != PARENTID_ROOT
    decreases |stored|
  {
    if stored == [] then Ok(map[])
    else
      var st := stored[|stored| - 1];
      match Hydrate(stored[..|stored| - 1])
      case Err(e) => Err(e)
      case Ok(m) =>
        match AddAll(Empty(), st.messages)
        case Err(e) => Err(e)
        case Ok(t) => Ok(m[st.id := (st.name, t)])
  }

  /** Once hydrating a prefix fails, hydrating the whole list fails with the same error. */
  lemma {:induction false} HydrateStopsAtFailure(stored: seq<StoredTopic>, k: nat)
    requires k <= |stored| && Hydrate(stored[..k]).Err?
    ensures Hydrate(stored).Err? && Hydrate(stored).exc == Hydrate(stored[..k]).exc
    decreases |stored| - k
  {
    if k < |stored| {
      assert stored[..k + 1][..k] == stored[..k];
      HydrateStopsAtFailure(stored, k + 1);
    } else {
      assert stored[..k] == stored;
    }
  }

  /** The stored id `stored[i]` is not stored again later. */
  predicate LastWithId(stored: seq<StoredTopic>, i: int)
    requires 0 <= i < |stored|
  {
    forall j :: i < j < |stored| ==> stored[j].id != stored[i].id
  }

  /** Start-up fails only on a stored list that cannot be loaded. */
  lemma {:induction false} HydrateSucceeds(stored: seq<StoredTopic>)
    requires forall i :: 0 <= i < |stored| ==> Loadable(Empty(), stored[i].messages)
    ensures Hydrate(stored).Ok?
    decreases |stored|
  {
    if stored != [] {
      var n := |stored| - 1;
      var init, last := stored[..n], stored[n].messages;
      assert Loadable(Empty(), last);
      AddAllLoads(Empty(), last);
      assert forall i :: 0 <= i < |init| ==> init[i] == stored[i];
      HydrateSucceeds(init);
    }
  }

  /** A successful start-up has one topic per distinct stored id. */
  lemma {:induction false} HydrateKeys(stored: seq<StoredTopic>)
    requires Hydrate(stored).Ok?
    ensures Hydrate(stored).value.Keys == set i | 0 <= i < |stored| :: stored[i].id
    decreases |stored|
  {
    if stored != [] {
      var n := |stored| - 1;
      var init := stored[..n];
      HydrateKeys(init);
      var mi := Hydrate(init).value;
      var m := Hydrate(stored).value;
      assert m.Keys == mi.Keys + {stored[n].id};
      forall k | k in m.Keys ensures exists i :: 0 <= i < |stored| && stored[i].id == k {
        if k != stored[n].id {
          var i :| 0 <= i < |init| && init[i].id == k;
          assert stored[i].id == k;
        }
      }
      forall i | 0 <= i < |stored| ensures stored[i].id in m.Keys {
        if i < n {
          assert init[i].id in mi.Keys;
        }
      }
    }
  }

  /** After a successful start-up, the topic filed under a stored id is the last stored
      topic with that id: its name and the tree its messages load into. */
  lemma {:induction false} HydrateKeepsLast(stored: seq<StoredTopic>, i: int)
    requires Hydrate(stored).Ok? && 0 <= i < |stored| && LastWithId(stored, i)
    ensures stored[i].id in Hydrate(stored).value
    ensures AddAll(Empty(), stored[i].messages).Ok?
    ensures Hydrate(stored).value[stored[i].id] == (stored[i].name, AddAll(Empty(), stored[i].messages).value)
    decreases |stored|
  {
    var n := |stored| - 1;
    if i < n {
      var init := stored[..n];
      assert stored[n].id != stored[i].id;
      assert init[i] == stored[i];
      assert LastWithId(init, i) by {
        forall j | i < j < |init| ensures init[j].id != init[i].id {
          assert init[j] == stored[j];
        }
      }
      HydrateKeepsLast(init, i);
    }
  }

  /** When every stored list has its parents first and distinct new ids, start-up
      succeeds, there is one topic per distinct stored id, and each holds the last
      stored topic with that id, with every one of its messages loaded. */
  lemma HydrateLoads(stored: seq<StoredTopic>)
    requires forall i :: 0 <= i < |stored| ==> Loadable(Empty(), stored[i].messages)
    ensures Hydrate(stored).Ok?
    ensures Hydrate(stored).value.Keys == set i | 0 <= i < |stored| :: stored[i].id
    ensures forall i :: 0 <= i < |stored| && LastWithId(stored, i) ==>
              && Hydrate(stored).value[stored[i].id].0 == stored[i].name
              && Loaded(Empty(), stored[i].messages, Hydrate(stored).value[stored[i].id].1)
  {
    HydrateSucceeds(stored);
    HydrateKeys(stored);
    forall i | 0 <= i < |stored| && LastWithId(stored, i)
      ensures && Hydrate(stored).value[stored[i].id].0 == stored[i].name
              && Loaded(Empty(), stored[i].messages, Hydrate(stored).value[stored[i].id].1)
    {
      HydrateKeepsLast(stored, i);
      AddAllLoads(Empty(), stored[i].messages);
    }
  }

  /** Each registered user's handle, by id. */
  function HandleMap(users: map<int, User>): (h: map<int, string>)
    ensures h.Keys == users.Keys && forall k :: k in users ==> h[k] == users[k].handle
  {
    map k | k in users :: users[k].handle
  }

  /** Each registered user's auth token, by id. */
  function TokenMap(users: map<int, User>): (h: map<int, string>)
    ensures h.Keys == users.Keys && forall k :: k in users ==> h[k] == users[k].authToken
  {
    map k | k in users :: users[k].authToken
  }

  /** What `on_message` does with a decoded dict, given the registered users' tokens:
      validate, read the claimed token, look the claimed id up, drop a message whose
      token is wrong, then look the kind up in `CALLBACKS` and run its callback. The
      only callback, `message_response`, reads `listeners`, which the dispatcher does
      not have. */
  function Dispatch(msg: Dict, tokens: map<int, string>): Outcome {
    match Validation(msg)
    case Some(why) => Raised(InvalidMessageError(why))
    case None =>
      if K_AUTH !in msg then Raised(KeyError(VStr(K_AUTH)))
      else match Subscript(tokens, msg[K_ID])
        case Err(e) => Raised(e)
        case Ok(uid) =>
          if msg[K_AUTH] != VStr(tokens[uid]) then Done
          else if !msg[K_TYPE].VStr? || Callbacks(msg[K_TYPE].s).None? then Raised(KeyError(msg[K_TYPE]))
          else Raised(AttributeError("listeners"))
  }

  /** Validation comes first: an invalid dict raises before the token is looked at. */
  lemma DispatchValidatesFirst(msg: Dict, tokens: map<int, string>)
    requires Validation(msg).Some?
    ensures Dispatch(msg, tokens) == Raised(InvalidMessageError(Validation(msg).value))
  {
  }

  /** `on_message` returns normally exactly when a valid message claims an id equal to a
      registered one and carries the wrong token for it, and then nothing happens; every
      message that passes the token check raises. */
  lemma DispatchReturnsOnlyOnWrongToken(msg: Dict, tokens: map<int, string>)
    ensures Dispatch(msg, tokens) == Done <==>
              && Validation(msg).None? && K_AUTH in msg
              && !Unhashable(msg[K_ID])
              && exists uid :: uid in tokens && EqualsInt(msg[K_ID], uid) && msg[K_AUTH] != VStr(tokens[uid])
  {
    if Validation(msg).None? && K_AUTH in msg && !Unhashable(msg[K_ID]) {
      var found := Subscript(tokens, msg[K_ID]);
      if uid :| uid in tokens && EqualsInt(msg[K_ID], uid) {
        assert found == Ok(uid);
      }
    }
  }

  /** A claimed id of `true` or `1.0` is user 1's id, as Python's `==` and hashing have it:
      with a wrong token such a message is dropped like one claiming `1`. */
  lemma DispatchBoolAndFloatIds(tokens: map<int, string>, token: string)
    requires 1 in tokens && tokens[1] != token
    ensures Dispatch(map[K_TYPE := VStr(M_TEST), K_ID := VBool(true), K_AUTH := VStr(token)], tokens) == Done
    ensures Dispatch(map[K_TYPE := VStr(M_TEST), K_ID := VFloat(1.0), K_AUTH := VStr(token)], tokens) == Done
  {
    ValidationOrder(map[K_TYPE := VStr(M_TEST), K_ID := VBool(true), K_AUTH := VStr(token)]);
    ValidationOrder(map[K_TYPE := VStr(M_TEST), K_ID := VFloat(1.0), K_AUTH := VStr(token)]);
  }

  /** A message with the right token is dispatched on its kind: a kind without a callback
      raises KeyError for the kind, `response` fails inside its callback. */
  lemma DispatchAuthenticated(msg: Dict, tokens: map<int, string>, uid: int)
    requires Validation(msg).None? && K_AUTH in msg && !Unhashable(msg[K_ID])
    requires uid in tokens && EqualsInt(msg[K_ID], uid) && msg[K_AUTH] == VStr(tokens[uid])
    ensures msg[K_TYPE] == VStr(M_RESPONSE) ==> Dispatch(msg, tokens) == Raised(AttributeError("listeners"))
    ensures msg[K_TYPE] != VStr(M_RESPONSE) ==> Dispatch(msg, tokens) == Raised(KeyError(msg[K_TYPE]))
  {
  }

  /** A set that is not empty has a member to pick. */
  lemma SomeMember(s: set<int>)
    ensures s == {} || exists x :: x in s
  {
    if forall x :: x !in s {
      assert s == {};
    }
  }

  /** One pass of the hydration loop: a topic with the stored name and id (the topic
      count goes up), whose tree is built from the stored messages. */
  method OpenStored(reg: Registry, st: StoredTopic) returns (r: Result<Topic>)
    modifies reg`ntopics
    ensures r.Ok? <==> AddAll(Empty(), st.messages).Ok?
    ensures r.Err? ==> r.exc == AddAll(Empty(), st.messages).exc
    ensures r.Ok? ==> && fresh(r.value) && fresh(r.value.tree)
                      && r.value.topicid == st.id && r.value.storeId == Some(st.id)
                      && r.value.name == st.name && r.value.urlname == Slug(st.name)
                      && r.value.users == [] && r.value.Members() == Membership([], 0)
                      && r.value.GetAllMessages() == AddAll(Empty(), st.messages).value
    ensures reg.ntopics == old(reg.ntopics) + 1 && reg.nusers == old(reg.nusers)
  {
    var t := new Topic.Stored(reg, st.name, st.id);
    var tree := new MessageTree();
    var loaded := tree.AddMessages(st.messages);
    if loaded.Raised? {
      return Err(loaded.exc);
    }
    t.tree := tree;
    r := Ok(t);
  }

  /** The dispatcher. `reg` holds the class-level id counters; `outbox` is every message
      handed to a socket, in order. */
  class BackEnd {
    const reg: Registry
    var users: map<int, User>
    var topics: map<int, Topic>
    var outbox: seq<Outbound>

    /** Users are filed under their ids, which the counter has already handed out;
        topics are filed under their ids and list each member once. */
    ghost predicate Valid()
      reads this, reg, topics.Values
    {
      && (forall k :: k in users ==> users[k].userid == k && k < reg.nusers)
      && (forall k :: k in topics ==> topics[k].topicid == k && NoDup(topics[k].users))
    }

    /** `__init__` up to the hydration loop: no users, no topics. */
    constructor (reg: Registry)
      ensures this.reg == reg && users == map[] && topics == map[] && outbox == []
      ensures Valid()
    {
      this.reg := reg;
      users, topics, outbox := map[], map[], [];
    }

    /** The topics are exactly those of `h`, each as the store left it: the name and its
        slug, the tree, no members. */
    ghost predicate Mirrors(h: map<int, (string, Tree<Message>)>)
      reads this, topics.Values, set k | k in topics :: topics[k].tree
    {
      && topics.Keys == h.Keys
      && forall k :: k in topics ==>
           && topics[k].topicid == k && topics[k].storeId == Some(k) && topics[k].name == h[k].0 && topics[k].urlname == Slug(h[k].0)
           && topics[k].GetAllMessages() == h[k].1 && topics[k].Members() == Membership([], 0)
    }

    /** The hydration loop of `__init__`: a topic per stored topic, its tree loaded from
        the stored messages, filed under its id. */
    method Load(stored: seq<StoredTopic>) returns (r: Outcome)
      requires Valid() && topics == map[]
      modifies this`topics, reg`ntopics
      ensures r.Done? <==> Hydrate(stored).Ok?
      ensures r.Raised? ==> r.exc == Hydrate(stored).exc
      ensures r.Done? ==> Valid() && Mirrors(Hydrate(stored).value)
      ensures r.Done? ==> reg.ntopics == old(reg.ntopics) + |stored|
      ensures users == old(users) && outbox == old(outbox) && reg.nusers == old(reg.nusers)
    {
      var i := 0;
      while i < |stored|
        invariant 0 <= i <= |stored|
        invariant Hydrate(stored[..i]).Ok? && Mirrors(Hydrate(stored[..i]).value)
        invariant reg.ntopics == old(reg.ntopics) + i
      {
        var st := stored[i];
        assert stored[..i + 1][..i] == stored[..i] && stored[..i + 1][i] == st;
        r := LoadOne(st, Hydrate(stored[..i]).value);
        if r.Raised? {
          HydrateStopsAtFailure(stored, i + 1);
          return;
        }
        i := i + 1;
      }
      assert stored[..i] == stored;
      r := Done;
    }

    /** One pass of the hydration loop: the stored topic is opened and filed under its
        id, replacing any topic filed there before. */
    method LoadOne(st: StoredTopic, ghost h: map<int, (string, Tree<Message>)>) returns (r: Outcome)
      requires Mirrors(h)
      modifies this`topics, reg`ntopics
      ensures r.Done? <==> AddAll(Empty(), st.messages).Ok?
      ensures r.Raised? ==> r.exc == AddAll(Empty(), st.messages).exc
      ensures r.Done? ==> Mirrors(h[st.id := (st.name, AddAll(Empty(), st.messages).value)])
      ensures reg.ntopics == old(reg.ntopics) + 1
    {
      var made := OpenStored(reg, st);
      if made.Err? {
        return Raised(made.exc);
      }
      topics := topics[st.id := made.value];
      r := Done;
    }

    /** The search loop of `add_topic`: is some topic called `name`? */
    method HasTopicNamed(name: string) returns (found: bool)
      ensures found <==> exists k :: k in topics && topics[k].name == name
    {
      var ks := topics.Keys;
      while ks != {}
        invariant ks <= topics.Keys
        invariant forall k :: k in topics.Keys - ks ==> topics[k].name != name
        decreases |ks|
      {
        SomeMember(ks);
        var k :| k in ks;
        if topics[k].name == name {
          return true;
        }
        ks := ks - {k};
      }
      found := false;
    }

    /** `add_topic`, filing the new topic under its `topicid`: a taken name changes
        nothing and answers false; otherwise a new topic with the next id, the slug of
        the name and no members or messages is filed and the answer is true. */
    method AddTopic(name: string) returns (added: bool)
      requires Valid()
      modifies this, reg`ntopics
      ensures Valid()
      ensures added <==> forall k :: k in old(topics) ==> old(topics)[k].name != name
      ensures !added ==> topics == old(topics) && reg.ntopics == old(reg.ntopics)
      ensures added ==> var id := old(reg.ntopics);
                && reg.ntopics == id + 1 && id in topics && fresh(topics[id])
                && topics == old(topics)[id := topics[id]]
                && topics[id].name == name && topics[id].urlname == Slug(name)
                && topics[id].Members() == Membership([], 0) && topics[id].GetAllMessages() == Empty()
                && topics[id].storeId == None
      ensures added && old(reg.ntopics) !in old(topics) ==> |topics| == |old(topics)| + 1
      ensures users == old(users) && outbox == old(outbox) && reg.nusers == old(reg.nusers) && reg.nmessages == old(reg.nmessages)
    {
      var taken := HasTopicNamed(name);
      if taken {
        return false;
      }
      var t := new Topic(reg, name, None);
      topics := topics[t.topicid := t];
      added := true;
    }

    /** `add_topic` as written: once the name is free it builds the topic, bumping the
        topic count, and then reads `newt.id`, which a topic does not have. */
    method AddTopicAsWritten(name: string) returns (r: Result<bool>)
      modifies reg`ntopics
      ensures r.Ok? <==> exists k :: k in topics && topics[k].name == name
      ensures r.Ok? ==> r.value == false && reg.ntopics == old(reg.ntopics)
      ensures r.Err? ==> r.exc == AttributeError("id") && reg.ntopics == old(reg.ntopics) + 1
      ensures reg.nusers == old(reg.nusers) && reg.nmessages == old(reg.nmessages)
    {
      var taken := HasTopicNamed(name);
      if taken {
        return Ok(false);
      }
      var t := new Topic(reg, name, None);
      r := Err(AttributeError("id"));
    }

    /** The search loop of `get_topicid_from_url`: some topic whose slug is `url`. */
    method FindTopicByUrl(url: string) returns (found: Option<int>)
      ensures found.None? <==> forall k :: k in topics ==> topics[k].urlname != url
      ensures found.Some? ==> found.value in topics && topics[found.value].urlname == url
    {
      var ks := topics.Keys;
      while ks != {}
        invariant ks <= topics.Keys
        invariant forall k :: k in topics.Keys - ks ==> topics[k].urlname != url
        decreases |ks|
      {
        SomeMember(ks);
        var k :| k in ks;
        if topics[k].urlname == url {
          return Some(k);
        }
        ks := ks - {k};
      }
      found := None;
    }

    /** `get_topicid_from_url`, answering with the topic's `topicid`: the id of a topic
        whose slug is `url`, or `NOID` when there is none. */
    method GetTopicIdFromUrl(url: string) returns (id: int)
      ensures || (exists k :: k in topics && topics[k].urlname == url && topics[k].topicid == id)
              || (id == NOID && forall k :: k in topics ==> topics[k].urlname != url)
    {
      var found := FindTopicByUrl(url);
      if found.None? {
        return NOID;
      }
      var k := found.value;
      id := topics[k].topicid;
      assert k in topics && topics[k].urlname == url && topics[k].topicid == id;
    }

    /** `get_topicid_from_url` as written: a match reads `t.id`. A topic the store built
        carries it; a topic `add_topic` builds has only `topicid`, so a match on one raises
        AttributeError. */
    method GetTopicIdFromUrlAsWritten(url: string) returns (r: Result<int>)
      ensures || (exists k :: k in topics && topics[k].urlname == url && topics[k].storeId.Some? &&
                             r == Ok(topics[k].storeId.value))
              || (exists k :: k in topics && topics[k].urlname == url && topics[k].storeId.None? &&
                             r == Err(AttributeError("id")))
              || (r == Ok(NOID) && forall k :: k in topics ==> topics[k].urlname != url)
      ensures (forall k :: k in topics && topics[k].urlname == url ==> topics[k].storeId.Some?) ==> r.Ok?
    {
      var found := FindTopicByUrl(url);
      if found.None? {
        return Ok(NOID);
      }
      var k := found.value;
      if topics[k].storeId.None? {
        r := Err(AttributeError("id"));
      } else {
        r := Ok(topics[k].storeId.value);
      }
      assert k in topics && topics[k].urlname == url;
    }

    /** `send_message`: stamps the message and hands it to the recipient's socket. An
        unregistered recipient raises KeyError and nothing is sent. */
    method SendMessage(p: Payload, userid: int, now: int) returns (r: Outcome)
      modifies this
      ensures users == old(users) && topics == old(topics)
      ensures r.Done? <==> userid in users
      ensures r.Done? ==> outbox == old(outbox) + [Outbound(userid, p, now)]
      ensures r.Raised? ==> r.exc == KeyError(VInt(userid)) && outbox == old(outbox)
    {
      if userid !in users {
        return Raised(KeyError(VInt(userid)));
      }
      outbox := outbox + [Outbound(userid, p, now)];
      r := Done;
    }

    /** `send_message` as written: the `to_json` it hands `json.dumps` is imported from
        models.py, which defines none; the only one there is, in message.py, accepts
        only `MessageNode`s. A `fulltree` payload of a tree holding messages therefore
        raises TypeError while being encoded, before the recipient is looked up. */
    method SendMessageAsWritten(p: Payload, userid: int, now: int) returns (r: Outcome)
      modifies this
      ensures users == old(users) && topics == old(topics)
      ensures !EncodesAsWritten(p) ==> r == Raised(EncodeError()) && outbox == old(outbox)
      ensures EncodesAsWritten(p) ==> (r.Done? <==> userid in users)
      ensures EncodesAsWritten(p) && r.Done? ==> outbox == old(outbox) + [Outbound(userid, p, now)]
      ensures EncodesAsWritten(p) && r.Raised? ==> r.exc == KeyError(VInt(userid)) && outbox == old(outbox)
    {
      if !EncodesAsWritten(p) {
        return Raised(EncodeError());
      }
      r := SendMessage(p, userid, now);
    }

    /** `add_user`: registers a new user with the next id, the default handle, the given
        token and the connection, and sends it exactly one `myhandle`. */
    method AddUser(handler: int, token: string, now: int) returns (userid: int)
      requires Valid()
      modifies this, reg`nusers
      ensures Valid()
      ensures userid == old(reg.nusers) && userid !in old(users) && reg.nusers == old(reg.nusers) + 1
      ensures users.Keys == old(users).Keys + {userid}
      ensures forall k :: k in old(users) ==> users[k] == old(users)[k]
      ensures fresh(users[userid]) && users[userid].handler == Some(handler) && users[userid].topicid == NO_TOPIC
      ensures users[userid].handle == UserHandle(userid) && users[userid].authToken == token
      ensures outbox == old(outbox) + [Outbound(userid, MyHandle(UserHandle(userid), userid, token), now)]
      ensures topics == old(topics) && reg.ntopics == old(reg.ntopics) && reg.nmessages == old(reg.nmessages)
    {
      var u := new User(reg, token);
      u.handler := Some(handler);
      users := users[u.userid := u];
      userid := u.userid;
      var sent := SendMessage(MyHandle(u.handle, u.userid, u.authToken), u.userid, now);
    }

    /** The first loop of `set_topic_for_user`: the handle of each member other than
        `joiner`, in member order, to `joiner`; a member that is no longer registered
        raises KeyError when the loop reaches it. */
    method SendRoster(members: seq<int>, joiner: int, now: int) returns (r: Outcome)
      requires joiner in users
      modifies this
      ensures users == old(users) && topics == old(topics)
      ensures r == Reach(members, joiner, users.Keys).0
      ensures AllIn(Reach(members, joiner, users.Keys).1, HandleMap(users))
      ensures outbox == old(outbox) + Roster(joiner, Reach(members, joiner, users.Keys).1, HandleMap(users), now)
    {
      ghost var handles := HandleMap(users);
      var i := 0;
      while i < |members|
        invariant 0 <= i <= |members|
        invariant users == old(users) && topics == old(topics)
        invariant Reach(members[..i], joiner, users.Keys).0 == Done
        invariant AllIn(Reach(members[..i], joiner, users.Keys).1, handles)
        invariant outbox == old(outbox) + Roster(joiner, Reach(members[..i], joiner, users.Keys).1, handles, now)
      {
        var uid := members[i];
        assert members[..i + 1][..i] == members[..i];
        if uid != joiner {
          if uid !in users {
            ReachStops(members, joiner, users.Keys, i + 1);
            return Raised(KeyError(VInt(uid)));
          }
          var user := users[uid];
          var sent := SendMessage(NewHandle(user.handle, uid), joiner, now);
          RosterSnoc(joiner, Reach(members[..i], joiner, users.Keys).1, uid, handles, now);
        }
        i := i + 1;
      }
      assert members[..i] == members;
      r := Done;
    }

    /** The announcing loops of `set_topic_for_user` and `remove_user`: `p` to each member
        other than `me`, in member order; a member that is no longer registered raises
        KeyError when the loop reaches it. */
    method SendToEach(members: seq<int>, me: int, p: Payload, now: int) returns (r: Outcome)
      modifies this
      ensures users == old(users) && topics == old(topics)
      ensures r == Reach(members, me, users.Keys).0
      ensures outbox == old(outbox) + Fan(Reach(members, me, users.Keys).1, p, now)
    {
      var i := 0;
      while i < |members|
        invariant 0 <= i <= |members|
        invariant users == old(users) && topics == old(topics)
        invariant Reach(members[..i], me, users.Keys).0 == Done
        invariant outbox == old(outbox) + Fan(Reach(members[..i], me, users.Keys).1, p, now)
      {
        var uid := members[i];
        assert members[..i + 1][..i] == members[..i];
        if uid != me {
          var sent := SendMessage(p, uid, now);
          if sent.Raised? {
            ReachStops(members, me, users.Keys, i + 1);
            return sent;
          }
          FanSnoc(Reach(members[..i], me, users.Keys).1, uid, p, now);
        }
        i := i + 1;
      }
      assert members[..i] == members;
      r := Done;
    }

    /** `set_topic_for_user`. An unknown user changes nothing. Otherwise the user's topic
        is set first, so an unknown topic raises KeyError with the user already moved;
        the user joins the topic (staying in any topic joined before), receives the
        handle of each other member in member order and then the topic's tree, and
        each other member receives the user's handle. A member that is no longer
        registered raises KeyError when the roster reaches it. */
    method SetTopicForUser(userid: int, topicid: int, now: int) returns (r: Outcome)
      requires Valid()
      modifies this, users.Values, topics.Values
      ensures Valid()
      ensures users == old(users) && topics == old(topics)
      ensures forall k :: k in users && k != userid ==> users[k].topicid == old(users[k].topicid)
      ensures forall k :: k in users ==> users[k].handler == old(users[k].handler)
      ensures forall k :: k in topics && (userid !in users || k != topicid) ==>
                topics[k].Members() == old(topics[k].Members()) && topics[k].tree == old(topics[k].tree)
      ensures userid !in users ==> r == Done && outbox == old(outbox)
      ensures userid in users ==> users[userid].topicid == topicid
      ensures userid in users && topicid !in topics ==> r == Raised(KeyError(VInt(topicid))) && outbox == old(outbox)
      ensures userid in users && topicid in topics ==>
                && topics[topicid].Members() == Join(old(topics[topicid].Members()), userid)
                && topics[topicid].tree == old(topics[topicid].tree)
      ensures userid in users && topicid in topics ==>
                var reach := Reach(topics[topicid].users, userid, users.Keys);
                && r == reach.0
                && AllIn(reach.1, HandleMap(users))
                && outbox == old(outbox) + Roster(userid, reach.1, HandleMap(users), now) +
                     if r.Raised? then []
                     else [Outbound(userid, FullTree(topics[topicid].GetAllMessages()), now)] +
                          Fan(reach.1, NewHandle(users[userid].handle, userid), now)
    {
      if userid !in users {
        return Done;
      }
      var u := users[userid];
      u.topicid := topicid;
      if topicid !in topics {
        return Raised(KeyError(VInt(topicid)));
      }
      var t := topics[topicid];
      t.AddUser(userid);
      r := Welcome(t.users, userid, t.GetAllMessages(), now);
    }

    /** The sends of a join: the roster to the joiner, then the tree, then the joiner's
        handle to each other member; the first member that is not registered ends it. */
    method Welcome(members: seq<int>, joiner: int, tree: Tree<Message>, now: int) returns (r: Outcome)
      requires joiner in users
      modifies this
      ensures users == old(users) && topics == old(topics)
      ensures var reach := Reach(members, joiner, users.Keys);
                && r == reach.0
                && AllIn(reach.1, HandleMap(users))
                && outbox == old(outbox) + Roster(joiner, reach.1, HandleMap(users), now) +
                     if r.Raised? then []
                     else [Outbound(joiner, FullTree(tree), now)] + Fan(reach.1, NewHandle(users[joiner].handle, joiner), now)
    {
      r := SendRoster(members, joiner, now);
      if r.Raised? {
        return;
      }
      var sent := SendMessage(FullTree(tree), joiner, now);
      r := SendToEach(members, joiner, NewHandle(users[joiner].handle, joiner), now);
    }

    /** The sends of a join as written: with `send_message` as written, a tree holding
        any message stops the join after the roster, so no other member learns the
        joiner's handle. */
    method WelcomeAsWritten(members: seq<int>, joiner: int, tree: Tree<Message>, now: int) returns (r: Outcome)
      requires joiner in users
      modifies this
      ensures users == old(users) && topics == old(topics)
      ensures var reach := Reach(members, joiner, users.Keys);
                && AllIn(reach.1, HandleMap(users))
                && (reach.0.Raised? ==> r == reach.0)
                && (reach.0.Done? && tree.messages != map[] ==> r == Raised(EncodeError()))
                && (reach.0.Done? && tree.messages == map[] ==> r == Done)
                && outbox == old(outbox) + Roster(joiner, reach.1, HandleMap(users), now) +
                     if r.Raised? then []
                     else [Outbound(joiner, FullTree(tree), now)] + Fan(reach.1, NewHandle(users[joiner].handle, joiner), now)
    {
      r := SendRoster(members, joiner, now);
      if r.Raised? {
        return;
      }
      r := SendMessageAsWritten(FullTree(tree), joiner, now);
      if r.Raised? {
        return;
      }
      r := SendToEach(members, joiner, NewHandle(users[joiner].handle, joiner), now);
    }

    /** The search loop of `remove_user`: some registered user on connection `handler`. */
    method FindUserByHandler(handler: int) returns (found: Option<int>)
      ensures found.None? <==> forall k :: k in users ==> users[k].handler != Some(handler)
      ensures found.Some? ==> found.value in users && users[found.value].handler == Some(handler)
    {
      var ks := users.Keys;
      while ks != {}
        invariant ks <= users.Keys
        invariant forall k :: k in users.Keys - ks ==> users[k].handler != Some(handler)
        decreases |ks|
      {
        SomeMember(ks);
        var k :| k in ks;
        if users[k].handler == Some(handler) {
          return Some(k);
        }
        ks := ks - {k};
      }
      found := None;
    }

    /** `remove_user`. An unknown connection changes nothing. Otherwise the user `c` on
        it is found; a topic id that names no topic (a user who never joined one)
        raises KeyError; each other member of the user's topic receives exactly one
        `removehandle` for `c`, in member order, until a member that is no longer
        registered raises KeyError; then `c` leaves the topic (KeyError if it is not a
        member) and is unregistered. */
    method RemoveUser(handler: int, now: int) returns (r: Outcome, ghost closeid: Option<int>)
      requires Valid()
      modifies this, topics.Values
      ensures Valid()
      ensures topics == old(topics)
      ensures closeid.None? <==> forall k :: k in old(users) ==> old(users)[k].handler != Some(handler)
      ensures closeid.None? ==> r == Done && users == old(users) && outbox == old(outbox)
      ensures closeid.Some? ==> closeid.value in old(users) && old(users)[closeid.value].handler == Some(handler)
      ensures forall k :: k in topics && (closeid.None? || k != old(users)[closeid.value].topicid) ==>
                topics[k].Members() == old(topics[k].Members())
      ensures forall k :: k in topics ==> topics[k].tree == old(topics[k].tree)
      ensures closeid.Some? && old(users)[closeid.value].topicid !in topics ==>
                var tid := old(users)[closeid.value].topicid;
                r == Raised(KeyError(VInt(tid))) && users == old(users) && outbox == old(outbox)
      ensures closeid.Some? && old(users)[closeid.value].topicid in topics ==>
                var c := closeid.value;
                var tid := old(users)[c].topicid;
                var reach := Reach(old(topics[tid].users), c, old(users).Keys);
                && outbox == old(outbox) + Fan(reach.1, RemoveHandle(c), now)
                && if reach.0.Raised? then
                     r == reach.0 && users == old(users) && topics[tid].Members() == old(topics[tid].Members())
                   else
                     var left := Leave(old(topics[tid].Members()), c);
                     if left.Err? then
                       r == Raised(left.exc) && users == old(users) && topics[tid].Members() == old(topics[tid].Members())
                     else
                       r == Done && users == old(users) - {c} && topics[tid].Members() == left.value
    {
      var found := FindUserByHandler(handler);
      closeid := found;
      if found.None? {
        return Done, closeid;
      }
      var c := found.value;
      var u := users[c];
      if u.topicid !in topics {
        return Raised(KeyError(VInt(u.topicid))), closeid;
      }
      var t := topics[u.topicid];
      var members := t.users;
      r := SendToEach(members, c, RemoveHandle(c), now);
      if r.Raised? {
        return r, closeid;
      }
      r := t.RemoveUser(c);
      if r.Raised? {
        return r, closeid;
      }
      users := users - {c};
    }

    /** `on_message` on a decoded dict. It changes nothing: a wrong token is dropped and
        every other path raises. */
    method OnMessage(msg: Dict) returns (r: Outcome)
      ensures r == Dispatch(msg, TokenMap(users))
    {
      r := ValidateMessage(msg);
      if r.Raised? {
        return;
      }
      if K_AUTH !in msg {
        return Raised(KeyError(VStr(K_AUTH)));
      }
      var uid := Subscript(users, msg[K_ID]);
      if uid.Err? {
        return Raised(uid.exc);
      }
      if msg[K_AUTH] != VStr(users[uid.value].authToken) {
        return Done;
      }
      var mtype := msg[K_TYPE];
      if !mtype.VStr? || Callbacks(mtype.s).None? {
        return Raised(KeyError(mtype));
      }
      r := Raised(AttributeError("listeners"));
    }
  }

  // ---------------------------------------------------------------------------
  // What the dispatcher's joins and departures deliver.

  /** A join whose roster loop completes (the shape `SetTopicForUser` and `Welcome`
      ensure for the outbox): the joiner receives the handle of every other member in
      member order and then the tree, never its own handle; each other member receives
      the joiner's handle once; nobody else receives anything. */
  lemma CompletedJoinDelivery(before: seq<Outbound>, after: seq<Outbound>, members: seq<int>, joiner: int,
                              handles: map<int, string>, handle: string, tree: Tree<Message>, now: int)
    requires NoDup(members) && Reach(members, joiner, handles.Keys).0.Done?
    requires AllIn(Reach(members, joiner, handles.Keys).1, handles)
    requires after == before + Roster(joiner, Reach(members, joiner, handles.Keys).1, handles, now) +
                       ([Outbound(joiner, FullTree(tree), now)] +
                        Fan(Reach(members, joiner, handles.Keys).1, NewHandle(handle, joiner), now))
    ensures Reach(members, joiner, handles.Keys).1 == Others(members, joiner)
    ensures Received(after[|before|..], joiner) == HandlesOf(Reach(members, joiner, handles.Keys).1, handles) + [FullTree(tree)]
    ensures forall h :: NewHandle(h, joiner) !in Received(after[|before|..], joiner)
    ensures forall x :: x in members && x != joiner ==> Received(after[|before|..], x) == [NewHandle(handle, joiner)]
    ensures forall x :: x !in members && x != joiner ==> Received(after[|before|..], x) == []
  {
    JoinDelta(before, after, members, joiner, handles, handle, tree, now);
    JoinDelivery(members, joiner, handles, handle, tree, now);
  }

  /** The outbox delta of a completed join is `JoinSends` to all the other members. */
  lemma JoinDelta(before: seq<Outbound>, after: seq<Outbound>, members: seq<int>, joiner: int,
                  handles: map<int, string>, handle: string, tree: Tree<Message>, now: int)
    requires Reach(members, joiner, handles.Keys).0.Done?
    requires AllIn(Reach(members, joiner, handles.Keys).1, handles)
    requires after == before + Roster(joiner, Reach(members, joiner, handles.Keys).1, handles, now) +
                       ([Outbound(joiner, FullTree(tree), now)] +
                        Fan(Reach(members, joiner, handles.Keys).1, NewHandle(handle, joiner), now))
    ensures Reach(members, joiner, handles.Keys).1 == Others(members, joiner)
    ensures AllIn(Others(members, joiner), handles) &&
            after[|before|..] == JoinSends(joiner, Others(members, joiner), handles, handle, tree, now)
  {
    ReachCompletes(members, joiner, handles.Keys);
    var others := Reach(members, joiner, handles.Keys).1;
    assert after[|before|..] == JoinSends(joiner, others, handles, handle, tree, now);
  }

  /** A departure whose loop completes (the shape `RemoveUser` ensures for the outbox):
      each other member receives one `removehandle` for the leaver, and nobody else
      receives anything. */
  lemma CompletedDepartureDelivery(before: seq<Outbound>, after: seq<Outbound>, members: seq<int>, leaver: int,
                                   registered: set<int>, now: int)
    requires NoDup(members) && Reach(members, leaver, registered).0.Done?
    requires after == before + Fan(Reach(members, leaver, registered).1, RemoveHandle(leaver), now)
    ensures forall x :: x in members && x != leaver ==> Received(after[|before|..], x) == [RemoveHandle(leaver)]
    ensures forall x :: x !in members || x == leaver ==> Received(after[|before|..], x) == []
  {
    ReachCompletes(members, leaver, registered);
    assert after[|before|..] == Fan(Others(members, leaver), RemoveHandle(leaver), now);
    DepartureDelivery(members, leaver, now);
  }
}
