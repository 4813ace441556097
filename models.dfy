/** The records of models.py: the id counters, users, topics, messages and the
    per-topic message tree. */
module Models {
  import opened Values
  import opened Threads

  /** `User.NO_TOPIC`: the topic id of a user who has not joined a topic. */
  const NO_TOPIC: int := -1
  /** `Topic.NOID`: returned as the topic id when no topic matches. */
  const NOID: int := -1

  /** The class-level counters `User.nusers`, `Topic.ntopics` and `Message.nmessages`,
      which hand out ids: each construction takes the current count and bumps it. */
  class Registry {
    var nusers: nat
    var ntopics: nat
    var nmessages: nat

    constructor ()
      ensures nusers == 0 && ntopics == 0 && nmessages == 0
    {
      nusers, ntopics, nmessages := 0, 0, 0;
    }

    /** `Message.__init__`: the id is the counter unless one is given, the topic id
        defaults to `NOID`, a missing post time is the current time `now`, and the
        counter goes up in every case, even when an explicit id is supplied. */
    method NewMessage(user: string, message: string, parentid: int, posttime: Option<int>,
                      topicid: Option<int>, id: Option<int>, now: int) returns (m: Message)
      modifies this
      ensures m.user == user && m.message == message && m.parentid == parentid
      ensures m.id == (if id.None? then old(nmessages) else id.value)
      ensures m.topicid == (if topicid.None? then NOID else topicid.value)
      ensures m.posttime == (if posttime.None? then now else posttime.value)
      ensures nmessages == old(nmessages) + 1 && nusers == old(nusers) && ntopics == old(ntopics)
    {
      var mid := if id.None? then nmessages else id.value;
      var tid := if topicid.None? then NOID else topicid.value;
      var pt := if posttime.None? then now else posttime.value;
      m := Message(user, message, mid, tid, parentid, pt);
      nmessages := nmessages + 1;
    }
  }

  /** A posted message; never changed once created. */
  datatype Message = Message(user: string, message: string, id: int, topicid: int, parentid: int, posttime: int)

  // ---------------------------------------------------------------------------
  // Default handles: "user" followed by the id in decimal.

  function Digit(d: nat): (c: char)
    requires d < 10
    ensures '0' <= c <= '9' && c as int - '0' as int == d
  {
    ('0' as int + d) as char
  }

  predicate IsDigits(s: string) {
    forall i :: 0 <= i < |s| ==> '0' <= s[i] <= '9'
  }

  /** The decimal numeral of `n`, as `str.format` writes it. */
  function Decimal(n: nat): (s: string)
    ensures |s| >= 1 && IsDigits(s)
    ensures |s| > 1 ==> s[0] != '0'
    decreases n
  {
    if n < 10 then [Digit(n)] else Decimal(n / 10) + [Digit(n % 10)]
  }

  /** Reads back a decimal numeral. */
  function ParseDecimal(s: string): nat
    requires IsDigits(s)
  {
    if s == [] then 0 else ParseDecimal(s[..|s| - 1]) * 10 + (s[|s| - 1] as int - '0' as int)
  }

  lemma {:induction false} DecimalRoundTrip(n: nat)
    ensures ParseDecimal(Decimal(n)) == n
    decreases n
  {
    if n >= 10 {
      var s := Decimal(n);
      assert s[..|s| - 1] == Decimal(n / 10);
      DecimalRoundTrip(n / 10);
    }
  }

  /** The handle a new user gets: `'user{0}'.format(userid)`. */
  function UserHandle(userid: nat): (h: string)
    ensures |h| > 4 && h[..4] == "user"
  {
    "user" + Decimal(userid)
  }

  /** The default handle names its user: it starts with "user" and the id can be read
      back from the rest, so users with different ids get different default handles. */
  lemma DefaultHandleNamesUser(a: nat, b: nat)
    ensures UserHandle(a)[..4] == "user" && IsDigits(UserHandle(a)[4..])
    ensures ParseDecimal(UserHandle(a)[4..]) == a
    ensures UserHandle(a) == UserHandle(b) <==> a == b
  {
    assert UserHandle(a)[4..] == Decimal(a);
    assert UserHandle(b)[4..] == Decimal(b);
    DecimalRoundTrip(a);
    DecimalRoundTrip(b);
  }

  // ---------------------------------------------------------------------------
  // Topic slugs.

  /** `name.replace(' ', '-')`: the address of a topic in a URL. */
  function Slug(name: string): (r: string)
    ensures |r| == |name|
    ensures forall i :: 0 <= i < |name| ==> r[i] == if name[i] == ' ' then '-' else name[i]
  {
    if name == [] then [] else Slug(name[..|name| - 1]) + [if name[|name| - 1] == ' ' then '-' else name[|name| - 1]]
  }

  /** A slug never holds a space, and every other character of the name survives. */
  lemma SlugHasNoSpace(name: string)
    ensures ' ' !in Slug(name)
    ensures forall i :: 0 <= i < |name| && name[i] != ' ' ==> Slug(name)[i] == name[i]
  {
    var r := Slug(name);
    forall i | 0 <= i < |r| ensures r[i] != ' ' {
    }
  }

  /** Slugs are not collision-free: two different topic names can share one. */
  lemma SlugsCollide()
    ensures "a b" != "a-b" && Slug("a b") == Slug("a-b")
  {
    assert Slug("a b") == "a-b";
    assert Slug("a-b") == "a-b";
  }

  // ---------------------------------------------------------------------------
  // Users.

  /** A connected user. Its identity and credentials are fixed at construction; the
      dispatcher later records its topic and its connection. */
  class User {
    const userid: nat
    const handle: string
    const authToken: string
    var topicid: int
    var handler: Option<int>

    /** `User.__init__`: takes the current user count as id, then bumps it. The token is
        the opaque value `uuid.uuid4()` would have produced. */
    constructor (reg: Registry, token: string)
      modifies reg`nusers
      ensures userid == old(reg.nusers) && handle == UserHandle(userid) && authToken == token
      ensures topicid == NO_TOPIC && handler == None
      ensures reg.nusers == old(reg.nusers) + 1 && reg.ntopics == old(reg.ntopics) && reg.nmessages == old(reg.nmessages)
    {
      userid := reg.nusers;
      handle := UserHandle(reg.nusers);
      authToken := token;
      topicid := NO_TOPIC;
      handler := None;
      new;
      reg.nusers := reg.nusers + 1;
    }
  }

  // ---------------------------------------------------------------------------
  // Topic membership: the dict of member ids (kept in insertion order) and the
  // separate `nusers` count.

  datatype Membership = Membership(users: seq<int>, nusers: int)

  predicate NoDup(s: seq<int>) {
    forall i, j :: 0 <= i < j < |s| ==> s[i] != s[j]
  }

  /** `nusers` agrees with the number of members. */
  predicate InStep(m: Membership) {
    m.nusers == |m.users|
  }

  /** `s` without `x`, order kept. */
  function Without(s: seq<int>, x: int): (r: seq<int>)
    ensures forall y :: y in r <==> y in s && y != x
    ensures NoDup(s) ==> NoDup(r)
  {
    if s == [] then []
    else if s[|s| - 1] == x then Without(s[..|s| - 1], x)
    else
      var w := Without(s[..|s| - 1], x);
      assert NoDup(s) ==> s[|s| - 1] !in s[..|s| - 1];
      w + [s[|s| - 1]]
  }

  lemma {:induction false} WithoutAbsent(s: seq<int>, x: int)
    requires x !in s
    ensures Without(s, x) == s
  {
    if s != [] {
      WithoutAbsent(s[..|s| - 1], x);
      assert s == s[..|s| - 1] + [s[|s| - 1]];
    }
  }

  lemma {:induction false} WithoutPresent(s: seq<int>, x: int)
    requires NoDup(s) && x in s
    ensures |Without(s, x)| == |s| - 1
  {
    var last := s[|s| - 1];
    var init := s[..|s| - 1];
    if last == x {
      assert x !in init;
      WithoutAbsent(init, x);
    } else {
      assert x in init;
      WithoutPresent(init, x);
    }
  }

  /** `Topic.add_user`: `users[userid] = None; nusers += 1`. A new member goes at the
      end; an existing member leaves the dict as it was, but the count still goes up. */
  function Join(m: Membership, uid: int): (r: Membership)
    ensures r.nusers == m.nusers + 1
    ensures uid in r.users && forall y :: y in r.users <==> y in m.users || y == uid
    ensures uid in m.users ==> r.users == m.users
    ensures uid !in m.users ==> r.users == m.users + [uid]
    ensures NoDup(m.users) ==> NoDup(r.users)
  {
    if uid in m.users then Membership(m.users, m.nusers + 1)
    else Membership(m.users + [uid], m.nusers + 1)
  }

  /** `Topic.remove_user`: `del users[userid]` raises KeyError for a non-member before
      the count moves; otherwise the member goes and the count goes down. */
  function Leave(m: Membership, uid: int): (r: Result<Membership>)
    ensures r.Err? <==> uid !in m.users
    ensures r.Err? ==> r.exc == KeyError(VInt(uid))
    ensures r.Ok? ==> r.value.nusers == m.nusers - 1 && uid !in r.value.users
    ensures r.Ok? ==> forall y :: y != uid ==> (y in r.value.users <==> y in m.users)
    ensures r.Ok? && NoDup(m.users) ==> NoDup(r.value.users)
  {
    if uid !in m.users then Err(KeyError(VInt(uid)))
    else Ok(Membership(Without(m.users, uid), m.nusers - 1))
  }

  /** Adding a fresh member and removing it again restores the membership exactly. */
  lemma JoinThenLeave(m: Membership, uid: int)
    requires uid !in m.users
    ensures Leave(Join(m, uid), uid) == Ok(m)
  {
    var s := m.users + [uid];
    assert s[..|s| - 1] == m.users;
    WithoutAbsent(m.users, uid);
  }

  /** `nusers == len(users)` survives an add exactly when the id was not a member. */
  lemma JoinInStep(m: Membership, uid: int)
    requires InStep(m)
    ensures InStep(Join(m, uid)) <==> uid !in m.users
  {
  }

  /** A successful remove keeps the count in step. */
  lemma LeaveInStep(m: Membership, uid: int)
    requires InStep(m) && NoDup(m.users) && uid in m.users
    ensures Leave(m, uid).Ok? && InStep(Leave(m, uid).value)
  {
    WithoutPresent(m.users, uid);
  }

  // ---------------------------------------------------------------------------
  // Invariants of a message tree of `Message`s.

  /** Every id with a child list has a node and the other way round, each node is
      filed under its own id, each node's parent is the root sentinel or has a child
      list, and every listed id has a node. */
  ghost predicate Consistent(t: Tree<Message>) {
    && t.children.Keys == t.messages.Keys
    && (forall k :: k in t.messages ==> t.messages[k].id == k)
    && (forall k :: k in t.messages ==> t.messages[k].parentid == PARENTID_ROOT || t.messages[k].parentid in t.children)
    && (forall r :: r in t.rootnodes ==> r in t.messages)
    && (forall p, c :: p in t.children && c in t.children[p] ==> c in t.messages)
  }

  /** The forest invariant, with `order` the ids in the order they arrived: ids are
      distinct, they are exactly the nodes, and each node's parent is the root
      sentinel or arrived before it. No node can then be its own ancestor. */
  ghost predicate Forest(t: Tree<Message>, order: seq<int>) {
    && NoDup(order)
    && (forall k :: k in t.messages <==> k in order)
    && (forall i :: 0 <= i < |order| ==>
          && order[i] in t.messages
          && (t.messages[order[i]].parentid == PARENTID_ROOT || t.messages[order[i]].parentid in order[..i]))
  }

  /** Attaching a message keeps the tree consistent, whatever its id. */
  lemma AttachConsistent(t: Tree<Message>, m: Message)
    requires Consistent(t) && Attach(t, m.id, m.parentid, m).Ok?
    ensures Consistent(Attach(t, m.id, m.parentid, m).value)
  {
    var u := Attach(t, m.id, m.parentid, m).value;
    forall p, c | p in u.children && c in u.children[p] ensures c in u.messages {
      if p == m.id {
        assert u.children[p] == [];
      } else if m.parentid != PARENTID_ROOT && p == m.parentid {
        assert u.children[p] == t.children[p] + [m.id];
      } else {
        assert u.children[p] == t.children[p];
      }
    }
  }

  /** Attaching a message with a fresh id keeps the forest: the new id arrives last
      and its parent is the sentinel or an id that arrived before it. */
  lemma AttachForest(t: Tree<Message>, order: seq<int>, m: Message)
    requires Consistent(t) && Forest(t, order) && m.id !in t.messages
    requires Attach(t, m.id, m.parentid, m).Ok?
    ensures Forest(Attach(t, m.id, m.parentid, m).value, order + [m.id])
  {
    var u := Attach(t, m.id, m.parentid, m).value;
    var o := order + [m.id];
    forall i | 0 <= i < |o|
      ensures o[i] in u.messages && (u.messages[o[i]].parentid == PARENTID_ROOT || u.messages[o[i]].parentid in o[..i])
    {
      if i < |order| {
        assert o[..i] == order[..i];
        assert o[i] == order[i] && order[i] != m.id;
      } else {
        assert o[..i] == order;
      }
    }
  }

  /** Following parent links from the `i`-th arrival reaches a root message. */
  ghost function ChainToRoot(t: Tree<Message>, order: seq<int>, i: nat): (c: seq<int>)
    requires Forest(t, order) && i < |order|
    ensures 1 <= |c| <= i + 1 && c[0] == order[i]
    ensures forall j :: 0 <= j < |c| ==> c[j] in t.messages
    ensures forall j :: 0 <= j < |c| - 1 ==> t.messages[c[j]].parentid == c[j + 1]
    ensures t.messages[c[|c| - 1]].parentid == PARENTID_ROOT
    decreases i
  {
    var k := order[i];
    var p := t.messages[k].parentid;
    if p == PARENTID_ROOT then [k]
    else
      assert p in order[..i];
      var j :| 0 <= j < i && order[j] == p;
      [k] + ChainToRoot(t, order, j)
  }

  // ---------------------------------------------------------------------------
  // Loading a tree from a list of messages.

  /** `for msg in messages: self.add_message(msg)`: stops at the first failure. */
  function AddAll(t: Tree<Message>, msgs: seq<Message>): (r: Result<Tree<Message>>)
    ensures r.Err? ==> r.exc.KeyError? && r.exc.key.VInt? && r.exc.key.i != PARENTID_ROOT
    decreases |msgs|
  {
    if msgs == [] then Ok(t)
    else
      match AddAll(t, msgs[..|msgs| - 1])
      case Err(e) => Err(e)
      case Ok(u) =>
        var m := msgs[|msgs| - 1];
        Attach(u, m.id, m.parentid, m)
  }

  function IdSet(msgs: seq<Message>): set<int> {
    if msgs == [] then {} else IdSet(msgs[..|msgs| - 1]) + {msgs[|msgs| - 1].id}
  }

  function RootIds(msgs: seq<Message>): seq<int> {
    if msgs == [] then []
    else RootIds(msgs[..|msgs| - 1]) + (if msgs[|msgs| - 1].parentid == PARENTID_ROOT then [msgs[|msgs| - 1].id] else [])
  }

  function ChildIds(msgs: seq<Message>, p: int): seq<int> {
    if msgs == [] then []
    else ChildIds(msgs[..|msgs| - 1], p) + (if msgs[|msgs| - 1].parentid == p then [msgs[|msgs| - 1].id] else [])
  }

  /** The ids are distinct and new to `t`, and each message's parent is the sentinel,
      already in `t`, or a message earlier in the list. */
  ghost predicate Loadable(t: Tree<Message>, msgs: seq<Message>) {
    && (forall i, j :: 0 <= i < j < |msgs| ==> msgs[i].id != msgs[j].id)
    && (forall i :: 0 <= i < |msgs| ==> msgs[i].id != PARENTID_ROOT && msgs[i].id !in t.children && msgs[i].id !in t.messages)
    && (forall i :: 0 <= i < |msgs| ==>
          || msgs[i].parentid == PARENTID_ROOT
          || msgs[i].parentid in t.children
          || msgs[i].parentid in IdSet(msgs[..i]))
  }

  lemma IdNotListed(s: seq<Message>, id: int)
    requires forall q :: 0 <= q < |s| ==> s[q].id != id
    ensures id !in IdSet(s)
  {
    if s != [] {
      IdNotListed(s[..|s| - 1], id);
    }
  }

  lemma LoadablePrefix(t: Tree<Message>, msgs: seq<Message>)
    requires Loadable(t, msgs) && msgs != []
    ensures Loadable(t, msgs[..|msgs| - 1])
  {
    var p := msgs[..|msgs| - 1];
    forall i | 0 <= i < |p| ensures p[..i] == msgs[..i] {
    }
  }

  lemma ChildIdsOfLater(msgs: seq<Message>, p: int)
    requires forall m :: m in msgs ==> m.parentid != p
    ensures ChildIds(msgs, p) == []
  {
    if msgs != [] {
      ChildIdsOfLater(msgs[..|msgs| - 1], p);
    }
  }

  /** What `Loadable` says of the last message of the list: its id is new to the
      earlier messages, none of them names it as parent, and its own parent is the
      sentinel, in `t`, or an earlier message. */
  lemma LoadableLast(t: Tree<Message>, msgs: seq<Message>)
    requires Loadable(t, msgs) && msgs != []
    ensures var init, m := msgs[..|msgs| - 1], msgs[|msgs| - 1];
      && m.id !in IdSet(init) && m.id !in t.children && m.parentid != m.id
      && (m.parentid == PARENTID_ROOT || m.parentid in t.children || m.parentid in IdSet(init))
      && ChildIds(init, m.id) == []
  {
    var init, m := msgs[..|msgs| - 1], msgs[|msgs| - 1];
    IdNotListed(init, m.id);
    forall x | x in init ensures x.parentid != m.id {
      var k :| 0 <= k < |init| && init[k] == x;
      assert msgs[k] == x;
      IdNotListed(msgs[..k], m.id);
    }
    ChildIdsOfLater(init, m.id);
    assert msgs[..|msgs| - 1] == init;
  }

  /** `r` is `t` with the messages `msgs` loaded: one node more per message, the roots
      in list order after the old ones, and each child list extended by its replies in
      list order. */
  ghost predicate Loaded(t: Tree<Message>, msgs: seq<Message>, r: Tree<Message>) {
    && r.messages.Keys == t.messages.Keys + IdSet(msgs)
    && r.children.Keys == t.children.Keys + IdSet(msgs)
    && |r.messages| == |t.messages| + |msgs|
    && r.rootnodes == t.rootnodes + RootIds(msgs)
    && (forall p :: p in r.children ==> r.children[p] == (if p in t.children then t.children[p] else []) + ChildIds(msgs, p))
  }

  /** Loading a list whose parents come first and whose ids are distinct and new
      succeeds and loads every message: from an empty tree, the node count is the
      length of the list. */
  lemma {:induction false} AddAllLoads(t: Tree<Message>, msgs: seq<Message>)
    requires t.children.Keys == t.messages.Keys && PARENTID_ROOT !in t.children && Loadable(t, msgs)
    ensures AddAll(t, msgs).Ok? && Loaded(t, msgs, AddAll(t, msgs).value)
    decreases |msgs|
  {
    if msgs != [] {
      var init, m := msgs[..|msgs| - 1], msgs[|msgs| - 1];
      LoadablePrefix(t, msgs);
      LoadableLast(t, msgs);
      AddAllLoads(t, init);
      IdNotListed(init, PARENTID_ROOT);
      SplitLast(msgs);
      AttachLoaded(t, init, AddAll(t, init).value, m);
    }
  }

  lemma SplitLast<T>(s: seq<T>)
    requires s != []
    ensures s == s[..|s| - 1] + [s[|s| - 1]]
  {
  }

  lemma IdsSnoc(init: seq<Message>, m: Message, p: int)
    ensures IdSet(init + [m]) == IdSet(init) + {m.id}
    ensures RootIds(init + [m]) == RootIds(init) + (if m.parentid == PARENTID_ROOT then [m.id] else [])
    ensures ChildIds(init + [m], p) == ChildIds(init, p) + (if m.parentid == p then [m.id] else [])
  {
    assert (init + [m])[..|init|] == init;
  }

  /** The inductive step of `AddAllLoads`: one more message on top of a loaded prefix. */
  lemma AttachLoaded(t: Tree<Message>, init: seq<Message>, u: Tree<Message>, m: Message)
    requires Loaded(t, init, u)
    requires PARENTID_ROOT !in t.children && PARENTID_ROOT !in IdSet(init)
    requires m.id !in IdSet(init) && m.id !in t.children && m.id !in t.messages && m.parentid != m.id
    requires m.parentid == PARENTID_ROOT || m.parentid in t.children || m.parentid in IdSet(init)
    requires ChildIds(init, m.id) == []
    ensures Attach(u, m.id, m.parentid, m).Ok?
    ensures Loaded(t, init + [m], Attach(u, m.id, m.parentid, m).value)
  {
    var r := Attach(u, m.id, m.parentid, m).value;
    IdsSnoc(init, m, 0);
    KeysStep(t.messages.Keys, IdSet(init), u.messages.Keys, r.messages.Keys, m.id, |u.messages|);
    KeysStep(t.children.Keys, IdSet(init), u.children.Keys, r.children.Keys, m.id, |u.children|);
    RootStep(t.rootnodes, init, u.rootnodes, r.rootnodes, m);
    forall p | p in r.children
      ensures r.children[p] == (if p in t.children then t.children[p] else []) + ChildIds(init + [m], p)
    {
      IdsSnoc(init, m, p);
      ChildStep(t, init, u, r, m, p);
    }
  }

  lemma KeysStep(tk: set<int>, init: set<int>, uk: set<int>, rk: set<int>, id: int, n: nat)
    requires uk == tk + init && |uk| == n
    requires id !in init && id !in tk && rk == uk + {id}
    ensures rk == tk + (init + {id}) && |rk| == n + 1
  {
  }

  lemma RootStep(roots: seq<int>, init: seq<Message>, before: seq<int>, after: seq<int>, m: Message)
    requires before == roots + RootIds(init)
    requires after == if m.parentid == PARENTID_ROOT then before + [m.id] else before
    ensures after == roots + RootIds(init + [m])
  {
    IdsSnoc(init, m, 0);
  }

  lemma ChildStep(t: Tree<Message>, init: seq<Message>, u: Tree<Message>, r: Tree<Message>, m: Message, p: int)
    requires p in r.children
    requires Attach(u, m.id, m.parentid, m) == Ok(r)
    requires p in u.children ==> u.children[p] == (if p in t.children then t.children[p] else []) + ChildIds(init, p)
    requires PARENTID_ROOT !in u.children && m.id !in t.children && m.parentid != m.id
    requires ChildIds(init, m.id) == []
    requires ChildIds(init + [m], p) == ChildIds(init, p) + (if m.parentid == p then [m.id] else [])
    ensures r.children[p] == (if p in t.children then t.children[p] else []) + ChildIds(init + [m], p)
  {
    if p == m.id {
    } else if p == m.parentid {
      assert p != PARENTID_ROOT;
    } else {
      assert p in u.children;
    }
  }

  // ---------------------------------------------------------------------------
  // The message tree of models.py.

  /** `MessageTree`: the root order, the child lists and the nodes of one topic. The
      ghost `arrival` records the ids in the order they were accepted. */
  class MessageTree {
    var rootnodes: seq<int>
    var children: map<int, seq<int>>
    var messages: map<int, Message>
    ghost var arrival: seq<int>

    /** `get_all_messages`: the three structures, as one value. */
    function GetAllMessages(): Tree<Message>
      reads this
    {
      Tree(rootnodes, children, messages)
    }

    ghost predicate Valid()
      reads this
    {
      Consistent(GetAllMessages())
    }

    ghost predicate IsForest()
      reads this
    {
      Forest(GetAllMessages(), arrival)
    }

    /** `MessageTree([])`: the empty tree. */
    constructor ()
      ensures GetAllMessages() == Empty() && arrival == []
      ensures Valid() && IsForest()
    {
      rootnodes, children, messages := [], map[], map[];
      arrival := [];
    }

    /** `add_message(mnode)`: appends the id to the root order or to its parent's child
        list, gives it an empty child list and files the node; an unknown parent
        raises KeyError before any field changes. */
    method AddMessage(m: Message) returns (r: Result<Message>)
      modifies this
      ensures r.Ok? <==> m.parentid == PARENTID_ROOT || m.parentid in old(children)
      ensures r.Ok? ==> r.value == m && arrival == old(arrival) + [m.id]
      ensures r.Ok? ==> GetAllMessages() == Attach(old(GetAllMessages()), m.id, m.parentid, m).value
      ensures r.Err? ==> r.exc == KeyError(VInt(m.parentid))
      ensures r.Err? ==> GetAllMessages() == old(GetAllMessages()) && arrival == old(arrival)
      ensures old(Valid()) ==> Valid()
      ensures old(Valid()) && old(IsForest()) && m.id !in old(messages) ==> IsForest()
    {
      var t := GetAllMessages();
      if m.parentid == PARENTID_ROOT {
        rootnodes := rootnodes + [m.id];
      } else if m.parentid in children {
        children := children[m.parentid := children[m.parentid] + [m.id]];
      } else {
        return Err(KeyError(VInt(m.parentid)));
      }
      children := children[m.id := []];
      messages := messages[m.id := m];
      arrival := arrival + [m.id];
      r := Ok(m);
      assert GetAllMessages() == Attach(t, m.id, m.parentid, m).value;
      if Consistent(t) {
        AttachConsistent(t, m);
        if Forest(t, old(arrival)) && m.id !in t.messages {
          AttachForest(t, old(arrival), m);
        }
      }
    }

    /** The loop of `MessageTree(messages)`: adds the messages in list order and stops
        at the first unknown parent. */
    method AddMessages(msgs: seq<Message>) returns (r: Outcome)
      modifies this
      ensures r.Done? <==> AddAll(old(GetAllMessages()), msgs).Ok?
      ensures r.Done? ==> GetAllMessages() == AddAll(old(GetAllMessages()), msgs).value
      ensures r.Raised? ==> r.exc == AddAll(old(GetAllMessages()), msgs).exc
      ensures old(Valid()) ==> Valid()
    {
      ghost var t0 := GetAllMessages();
      var i := 0;
      while i < |msgs|
        invariant 0 <= i <= |msgs|
        invariant AddAll(t0, msgs[..i]).Ok? && GetAllMessages() == AddAll(t0, msgs[..i]).value
        invariant old(Valid()) ==> Valid()
      {
        assert msgs[..i + 1][..i] == msgs[..i];
        var a := AddMessage(msgs[i]);
        if a.Err? {
          AddAllStopsAtFailure(t0, msgs, i + 1);
          return Raised(a.exc);
        }
        i := i + 1;
      }
      assert msgs[..i] == msgs;
      r := Done;
    }
  }

  /** Once loading a prefix fails, loading the whole list fails with the same error. */
  lemma {:induction false} AddAllStopsAtFailure(t: Tree<Message>, msgs: seq<Message>, k: nat)
    requires k <= |msgs| && AddAll(t, msgs[..k]).Err?
    ensures AddAll(t, msgs).Err? && AddAll(t, msgs).exc == AddAll(t, msgs[..k]).exc
    decreases |msgs| - k
  {
    if k < |msgs| {
      assert msgs[..k + 1][..k] == msgs[..k];
      AddAllStopsAtFailure(t, msgs, k + 1);
    } else {
      assert msgs[..k] == msgs;
    }
  }

  // ---------------------------------------------------------------------------
  // Topics.

  /** A topic: its fixed identity, its members with their separate count, and its
      message tree. */
  class Topic {
    const topicid: int
    const name: string
    const urlname: string
    /** The `id` attribute the hydration loop reads: present only on a topic the store
        built. */
    const storeId: Option<int>
    var nusers: int
    var users: seq<int>
    var tree: MessageTree

    function Members(): Membership
      reads this
    {
      Membership(users, nusers)
    }

    ghost predicate Valid()
      reads this, tree
    {
      NoDup(users) && tree.Valid()
    }

    /** `Topic.__init__`: the id is the topic count unless one is given, the slug is
        the name with spaces made dashes, no members, an empty tree; the count goes up
        in every case. */
    constructor (reg: Registry, name: string, id: Option<int>)
      modifies reg`ntopics
      ensures topicid == (if id.None? then old(reg.ntopics) else id.value)
      ensures this.name == name && urlname == Slug(name)
      ensures Members() == Membership([], 0) && InStep(Members())
      ensures fresh(tree) && tree.GetAllMessages() == Empty() && Valid()
      ensures storeId == None
      ensures reg.ntopics == old(reg.ntopics) + 1 && reg.nusers == old(reg.nusers) && reg.nmessages == old(reg.nmessages)
    {
      topicid := if id.None? then reg.ntopics else id.value;
      this.name := name;
      urlname := Slug(name);
      storeId := None;
      nusers := 0;
      users := [];
      tree := new MessageTree();
      new;
      reg.ntopics := reg.ntopics + 1;
    }

    /** A topic as the store hands it back: `Topic(name, id)`, which moves the count like
        any other, and additionally carrying `id` equal to its `topicid`. */
    constructor Stored(reg: Registry, name: string, id: int)
      modifies reg`ntopics
      ensures topicid == id && storeId == Some(id)
      ensures this.name == name && urlname == Slug(name)
      ensures Members() == Membership([], 0) && InStep(Members())
      ensures fresh(tree) && tree.GetAllMessages() == Empty() && Valid()
      ensures reg.ntopics == old(reg.ntopics) + 1 && reg.nusers == old(reg.nusers) && reg.nmessages == old(reg.nmessages)
    {
      topicid := id;
      this.name := name;
      urlname := Slug(name);
      storeId := Some(id);
      nusers := 0;
      users := [];
      tree := new MessageTree();
      new;
      reg.ntopics := reg.ntopics + 1;
    }

    /** `add_user`. */
    method AddUser(uid: int)
      modifies this
      ensures Members() == Join(old(Members()), uid) && tree == old(tree)
      ensures old(Valid()) ==> Valid()
    {
      if uid !in users {
        users := users + [uid];
      }
      nusers := nusers + 1;
    }

    /** `remove_user`: a non-member raises KeyError and nothing changes. */
    method RemoveUser(uid: int) returns (r: Outcome)
      modifies this
      ensures r.Done? <==> Leave(old(Members()), uid).Ok?
      ensures r.Done? ==> Members() == Leave(old(Members()), uid).value
      ensures r.Raised? ==> r.exc == KeyError(VInt(uid)) && Members() == old(Members())
      ensures tree == old(tree) && (old(Valid()) ==> Valid())
    {
      if uid !in users {
        return Raised(KeyError(VInt(uid)));
      }
      users := Without(users, uid);
      nusers := nusers - 1;
      r := Done;
    }

    /** `add_message`: hands the node to the tree and returns nothing. */
    method AddMessage(m: Message) returns (r: Outcome)
      modifies tree
      ensures r.Done? <==> m.parentid == PARENTID_ROOT || m.parentid in old(tree.children)
      ensures r.Done? ==> tree.GetAllMessages() == Attach(old(tree.GetAllMessages()), m.id, m.parentid, m).value
      ensures r.Raised? ==> r.exc == KeyError(VInt(m.parentid)) && tree.GetAllMessages() == old(tree.GetAllMessages())
      ensures old(Valid()) ==> Valid()
    {
      var a := tree.AddMessage(m);
      r := if a.Ok? then Done else Raised(a.exc);
    }

    /** `get_all_messages`: the snapshot of the topic's tree. */
    function GetAllMessages(): Tree<Message>
      reads this, tree
    {
      tree.GetAllMessages()
    }
  }
}
