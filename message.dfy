/** The protocol module message.py: message keys and kinds, the validator, the JSON
    encoder for message nodes, the older message tree with its global id counter, and
    the `response` callback written against the older socket-handler interface. */
module Protocol {
  import opened Values
  import opened Threads

  /** Message id for a message sent to all clients. */
  const ID_ALL: int := -1

  const K_TYPE: string := "mtype"
  const K_ID: string := "id"
  const K_TSTAMP: string := "tstamp"
  /** The key of the auth token in an inbound message. The dispatcher reads
      `message.K_AUTH`, which this module never defines; the model takes the key under
      which the token is handed to its owner at connect time. */
  const K_AUTH: string := "auth_token"

  const REQUIRED_MESSAGE_KEYS: seq<string> := [K_TYPE, K_ID]

  const M_TEST: string := "test"
  const M_MYHANDLE: string := "myhandle"
  const M_NEWHANDLE: string := "newhandle"
  const M_REMOVEHANDLE: string := "removehandle"
  const M_FULLTREE: string := "fulltree"
  const M_NEWMESSAGE: string := "newmessage"
  const M_RESPONSE: string := "response"

  const ALLOWED_MESSAGES: seq<string> :=
    [M_TEST, M_MYHANDLE, M_NEWHANDLE, M_REMOVEHANDLE, M_FULLTREE, M_NEWMESSAGE, M_RESPONSE]

  /** A decoded message: string keys, JSON values. */
  type Dict = map<string, Value>

  /** `mdict[K_TYPE] in ALLOWED_MESSAGES`: list membership by equality, so only a string
      can match. */
  predicate Allowed(v: Value) {
    v.VStr? && v.s in ALLOWED_MESSAGES
  }

  // ---------------------------------------------------------------------------
  // Validation.

  /** The first of `keys` that `d` lacks, scanning in order. */
  function FirstMissing(keys: seq<string>, d: Dict): (r: Option<string>)
    ensures r.None? <==> forall k :: k in keys ==> k in d
    ensures r.Some? ==> exists i :: 0 <= i < |keys| && keys[i] == r.value && r.value !in d &&
                          forall j :: 0 <= j < i ==> keys[j] in d
  {
    if keys == [] then None
    else if keys[0] !in d then Some(keys[0])
    else
      var r := FirstMissing(keys[1..], d);
      assert r.Some? ==> exists i :: 0 <= i < |keys[1..]| && keys[1..][i] == r.value && r.value !in d &&
                          forall j :: 0 <= j < i ==> keys[1..][j] in d;
      if r.Some? then
        var i :| 0 <= i < |keys[1..]| && keys[1..][i] == r.value && r.value !in d &&
                 forall j :: 0 <= j < i ==> keys[1..][j] in d;
        assert keys[i + 1] == r.value;
        r
      else r
  }

  /** What `validate_message` decides: the first missing required key, else a kind
      outside the allowed list, else nothing wrong. */
  function Validation(d: Dict): (r: Option<Invalid>)
    ensures r.None? <==> K_TYPE in d && K_ID in d && Allowed(d[K_TYPE])
  {
    match FirstMissing(REQUIRED_MESSAGE_KEYS, d)
    case Some(k) => Some(MissingKey(k))
    case None => if Allowed(d[K_TYPE]) then None else Some(TypeNotAllowed(d[K_TYPE]))
  }

  /** `validate_message` checks `mtype` before `id` and only then the kind; a dict
      with both keys and an allowed kind passes. */
  lemma ValidationOrder(d: Dict)
    ensures K_TYPE !in d ==> Validation(d) == Some(MissingKey(K_TYPE))
    ensures K_TYPE in d && K_ID !in d ==> Validation(d) == Some(MissingKey(K_ID))
    ensures K_TYPE in d && K_ID in d ==> (Validation(d) == None <==> Allowed(d[K_TYPE]))
    ensures K_TYPE in d && K_ID in d && !Allowed(d[K_TYPE]) ==> Validation(d) == Some(TypeNotAllowed(d[K_TYPE]))
  {
    assert REQUIRED_MESSAGE_KEYS[1..] == [K_ID];
    assert [K_ID][1..] == [];
  }

  /** `validate_message`: raises InvalidMessageError for the first missing required key,
      then for a kind outside the allowed list; otherwise returns, leaving the dict as
      it was. */
  method ValidateMessage(mdict: Dict) returns (r: Outcome)
    ensures r.Done? <==> Validation(mdict).None?
    ensures r.Raised? ==> r.exc == InvalidMessageError(Validation(mdict).value)
  {
    var i := 0;
    while i < |REQUIRED_MESSAGE_KEYS|
      invariant 0 <= i <= |REQUIRED_MESSAGE_KEYS|
      invariant FirstMissing(REQUIRED_MESSAGE_KEYS, mdict) == FirstMissing(REQUIRED_MESSAGE_KEYS[i..], mdict)
    {
      var at := REQUIRED_MESSAGE_KEYS[i];
      if at !in mdict {
        return Raised(InvalidMessageError(MissingKey(at)));
      }
      assert REQUIRED_MESSAGE_KEYS[i..][1..] == REQUIRED_MESSAGE_KEYS[i + 1..];
      i := i + 1;
    }
    if !Allowed(mdict[K_TYPE]) {
      return Raised(InvalidMessageError(TypeNotAllowed(mdict[K_TYPE])));
    }
    r := Done;
  }

  // ---------------------------------------------------------------------------
  // Message nodes and their JSON form.

  /** `MessageNode`: author, text, id and parent id, as the older tree stores them. */
  datatype LegacyNode = LegacyNode(user: string, message: Value, id: int, parentid: Value)

  /** What `json.dumps` hands to `to_json`: a message node, or any other object, known
      only by its `repr`. */
  datatype Encodable = NodeObj(node: LegacyNode) | OtherObj(repr: string)

  /** `to_json`: a message node becomes a dict with exactly the keys `user`, `message`,
      `id` and `parentid`; anything else raises TypeError. */
  function ToJson(o: Encodable): (r: Result<Dict>)
    ensures r.Ok? <==> o.NodeObj?
    ensures r.Err? ==> r.exc == TypeError(o.repr + " is not JSON serializable")
    ensures r.Ok? ==> r.value.Keys == {"user", "message", "id", "parentid"}
  {
    match o
    case NodeObj(n) =>
      Ok(map["user" := VStr(n.user), "message" := n.message, "id" := VInt(n.id), "parentid" := n.parentid])
    case OtherObj(repr) => Err(TypeError(repr + " is not JSON serializable"))
  }

  /** Reads a node back from its JSON form. */
  function NodeFromJson(d: Dict): Option<LegacyNode> {
    if "user" in d && "message" in d && "id" in d && "parentid" in d && d["user"].VStr? && d["id"].VInt? then
      Some(LegacyNode(d["user"].s, d["message"], d["id"].i, d["parentid"]))
    else None
  }

  /** The JSON form of a node holds all of it. */
  lemma ToJsonRoundTrip(n: LegacyNode)
    ensures ToJson(NodeObj(n)).Ok? && NodeFromJson(ToJson(NodeObj(n)).value) == Some(n)
  {
  }

  // ---------------------------------------------------------------------------
  // The global message id counter and the older message tree.

  /** The module-level counter `_MESSAGE_ID`, held by an object instead of a global. */
  class NodeIds {
    var next: int

    constructor ()
      ensures next == 0
    {
      next := 0;
    }

    /** `MessageNode.__init__`: the node takes the current id, the counter goes up by
        exactly one. */
    method NewNode(user: string, message: Value, parentid: Value) returns (n: LegacyNode)
      modifies this
      ensures n == LegacyNode(user, message, old(next), parentid)
      ensures next == old(next) + 1
    {
      n := LegacyNode(user, message, next, parentid);
      next := next + 1;
    }
  }

  const COFFEE: string := "What do you think is the significance of coffee?"
  const BANANAS: string := "How important are the bananas in Timbuktu?"

  /** Where `add_message` files a node whose parent id is `parentid`: at the root when
      the value equals `_PARENTID_ROOT` (so `-1.0` does too), otherwise under the child
      list `_children[parentid]` reads, or the error that lookup raises. */
  function ParentKey(t: Tree<LegacyNode>, parentid: Value): (r: Result<int>)
    ensures r.Ok? ==> EqualsInt(parentid, r.value) && (r.value == PARENTID_ROOT || r.value in t.children)
    ensures r.Ok? <==> EqualsInt(parentid, PARENTID_ROOT) || (!Unhashable(parentid) && exists k :: k in t.children && EqualsInt(parentid, k))
    ensures r.Err? && !Unhashable(parentid) ==> r.exc == KeyError(parentid)
    ensures r.Err? && Unhashable(parentid) ==> r.exc.TypeError?
  {
    if EqualsInt(parentid, PARENTID_ROOT) then Ok(PARENTID_ROOT) else Subscript(t.children, parentid)
  }

  /** `MessageTree` of message.py: the same three structures as the per-topic tree,
      seeded with two questions. */
  class LegacyTree {
    var rootnodes: seq<int>
    var children: map<int, seq<int>>
    var messages: map<int, LegacyNode>
    const ids: NodeIds

    function GetAllMessages(): Tree<LegacyNode>
      reads this
    {
      Tree(rootnodes, children, messages)
    }

    /** `MessageTree.__init__`: exactly two root messages by `admin`, in this order. */
    constructor (ids: NodeIds)
      modifies ids
      ensures this.ids == ids && ids.next == old(ids.next) + 2
      ensures rootnodes == [old(ids.next), old(ids.next) + 1]
      ensures children == map[old(ids.next) := [], old(ids.next) + 1 := []]
      ensures messages == map[old(ids.next) := LegacyNode("admin", VStr(COFFEE), old(ids.next), VInt(PARENTID_ROOT)),
                              old(ids.next) + 1 := LegacyNode("admin", VStr(BANANAS), old(ids.next) + 1, VInt(PARENTID_ROOT))]
    {
      this.ids := ids;
      rootnodes, children, messages := [], map[], map[];
      new;
      var _ := AddMessage(VInt(PARENTID_ROOT), "admin", VStr(COFFEE));
      var _ := AddMessage(VInt(PARENTID_ROOT), "admin", VStr(BANANAS));
    }

    /** `add_message`: the node is created first, so its id is consumed even when the
        parent turns out to be unknown; then the id goes to the root order or its
        parent's child list. An unknown parent raises KeyError and leaves the tree as
        it was. */
    method AddMessage(parentid: Value, user: string, message: Value) returns (r: Result<LegacyNode>)
      modifies this, ids
      ensures ids.next == old(ids.next) + 1
      ensures r.Ok? <==> ParentKey(old(GetAllMessages()), parentid).Ok?
      ensures r.Ok? ==> r.value == LegacyNode(user, message, old(ids.next), parentid)
      ensures r.Ok? ==>
                GetAllMessages() == Attach(old(GetAllMessages()), r.value.id, ParentKey(old(GetAllMessages()), parentid).value, r.value).value
      ensures r.Err? ==> r.exc == ParentKey(old(GetAllMessages()), parentid).exc && GetAllMessages() == old(GetAllMessages())
    {
      var mnode := ids.NewNode(user, message, parentid);
      var mnodeid := mnode.id;
      if EqualsInt(parentid, PARENTID_ROOT) {
        rootnodes := rootnodes + [mnodeid];
      } else {
        var parent := Subscript(children, parentid);
        if parent.Err? {
          return Err(parent.exc);
        }
        children := children[parent.value := children[parent.value] + [mnodeid]];
      }
      children := children[mnodeid := []];
      messages := messages[mnodeid := mnode];
      r := Ok(mnode);
    }
  }

  // ---------------------------------------------------------------------------
  // The `response` callback and the callback table.

  /** What `send_message_to_all` is handed: a `newmessage` carrying the node. */
  datatype Broadcast = NewMessageToAll(node: LegacyNode)

  /** The older socket-handler interface the callback is written against: the
      listeners' handles by id, the message tree, and the broadcasts sent so far. */
  class WsHandler {
    var listeners: map<int, string>
    const messageTree: LegacyTree
    var sent: seq<Broadcast>

    constructor (tree: LegacyTree)
      ensures listeners == map[] && messageTree == tree && sent == []
    {
      listeners, messageTree, sent := map[], tree, [];
    }
  }

  /** The listener `listeners[msg["id"]]` finds: its key, or the KeyError for a missing
      `id` or the error the lookup raises. */
  function Sender(listeners: map<int, string>, msg: Dict): (r: Result<int>)
    ensures r.Ok? <==> K_ID in msg && !Unhashable(msg[K_ID]) && exists k :: k in listeners && EqualsInt(msg[K_ID], k)
    ensures r.Ok? ==> r.value in listeners && EqualsInt(msg[K_ID], r.value)
    ensures K_ID !in msg ==> r == Err(KeyError(VStr(K_ID)))
    ensures K_ID in msg && !Unhashable(msg[K_ID]) && r.Err? ==> r == Err(KeyError(msg[K_ID]))
  {
    if K_ID !in msg then Err(KeyError(VStr(K_ID))) else Subscript(listeners, msg[K_ID])
  }

  /** `message_response`: looks up the sender's handle, reads `replyid` and `text` in
      that order, adds the reply to the tree and broadcasts it to everyone. Each
      lookup that fails raises KeyError; a failed lookup before the tree is reached
      changes nothing, an unknown parent still consumes a message id. */
  method MessageResponse(w: WsHandler, msg: Dict) returns (r: Outcome)
    modifies w, w.messageTree, w.messageTree.ids
    ensures w.listeners == old(w.listeners)
    ensures Sender(old(w.listeners), msg).Err? ==> r == Raised(Sender(old(w.listeners), msg).exc)
    ensures Sender(old(w.listeners), msg).Ok? && "replyid" !in msg ==> r == Raised(KeyError(VStr("replyid")))
    ensures Sender(old(w.listeners), msg).Ok? && "replyid" in msg && "text" !in msg ==>
              r == Raised(KeyError(VStr("text")))
    ensures !(Sender(old(w.listeners), msg).Ok? && "replyid" in msg && "text" in msg) ==>
              && w.messageTree.GetAllMessages() == old(w.messageTree.GetAllMessages())
              && w.messageTree.ids.next == old(w.messageTree.ids.next) && w.sent == old(w.sent)
    ensures Sender(old(w.listeners), msg).Ok? && "replyid" in msg && "text" in msg ==>
              var node := LegacyNode(old(w.listeners)[Sender(old(w.listeners), msg).value], msg["text"],
                                     old(w.messageTree.ids.next), msg["replyid"]);
              var parent := ParentKey(old(w.messageTree.GetAllMessages()), msg["replyid"]);
              && w.messageTree.ids.next == old(w.messageTree.ids.next) + 1
              && (r.Done? <==> parent.Ok?)
              && (r.Done? ==> w.sent == old(w.sent) + [NewMessageToAll(node)])
              && (r.Done? ==> w.messageTree.GetAllMessages() ==
                                Attach(old(w.messageTree.GetAllMessages()), node.id, parent.value, node).value)
              && (r.Raised? ==> r.exc == parent.exc && w.sent == old(w.sent))
              && (r.Raised? ==> w.messageTree.GetAllMessages() == old(w.messageTree.GetAllMessages()))
  {
    var id := Sender(w.listeners, msg);
    if id.Err? {
      return Raised(id.exc);
    }
    var user := w.listeners[id.value];
    if "replyid" !in msg {
      return Raised(KeyError(VStr("replyid")));
    }
    if "text" !in msg {
      return Raised(KeyError(VStr("text")));
    }
    var added := w.messageTree.AddMessage(msg["replyid"], user, msg["text"]);
    if added.Err? {
      return Raised(added.exc);
    }
    w.sent := w.sent + [NewMessageToAll(added.value)];
    r := Done;
  }

  /** The callbacks `CALLBACKS` maps kinds to. */
  datatype Callback = ResponseCallback

  /** `CALLBACKS`: only `response` has a callback. */
  function Callbacks(mtype: string): (r: Option<Callback>)
    ensures r.Some? <==> mtype == M_RESPONSE
  {
    if mtype == M_RESPONSE then Some(ResponseCallback) else None
  }
}
