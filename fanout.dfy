/** Outbound messages and the fan-out patterns the dispatcher sends them in. A send
    is recorded as an `Outbound` (recipient, payload, timestamp); the kind of a
    message is determined by its payload. */
module Fanout {
  import opened Values
  import opened Threads
  import opened Models
  import opened Protocol

  /** The server-to-client messages the dispatcher builds. */
  datatype Payload =
    | MyHandle(handle: string, userid: int, authToken: string)
    | NewHandle(handle: string, userid: int)
    | RemoveHandle(userid: int)
    | FullTree(tree: Tree<Message>)

  /** The `mtype` each payload is sent with; every one is a kind the validator accepts. */
  function Kind(p: Payload): (k: string)
    ensures k in ALLOWED_MESSAGES && k != M_RESPONSE && k != M_TEST
  {
    match p
    case MyHandle(_, _, _) => M_MYHANDLE
    case NewHandle(_, _) => M_NEWHANDLE
    case RemoveHandle(_) => M_REMOVEHANDLE
    case FullTree(_) => M_FULLTREE
  }

  /** The `repr` of a `models.Message`; the address it also shows is not modelled. */
  const MESSAGE_REPR: string := "<models.Message object>"

  /** Whether `json.dumps` with `message.to_json` as its fallback encodes the payload:
      that encoder accepts only `MessageNode`s, and a `fulltree` payload carries the
      topic's `models.Message` nodes, so only a tree without messages gets through. */
  predicate EncodesAsWritten(p: Payload) {
    !(p.FullTree? && p.tree.messages != map[])
  }

  /** The TypeError `message.to_json` raises for the first `models.Message` it meets. */
  function EncodeError(): (e: Exc)
    ensures e == ToJson(OtherObj(MESSAGE_REPR)).exc
  {
    TypeError(MESSAGE_REPR + " is not JSON serializable")
  }

  /** One message handed to a recipient's socket, stamped with `tstamp`. */
  datatype Outbound = Outbound(recipient: int, payload: Payload, tstamp: int)

  /** The payloads addressed to `r`, in the order they were sent. */
  function Received(out: seq<Outbound>, r: int): seq<Payload> {
    if out == [] then []
    else Received(out[..|out| - 1], r) + (if out[|out| - 1].recipient == r then [out[|out| - 1].payload] else [])
  }

  lemma ReceivedSnoc(a: seq<Outbound>, x: Outbound, r: int)
    ensures Received(a + [x], r) == Received(a, r) + (if x.recipient == r then [x.payload] else [])
  {
    assert (a + [x])[..|a|] == a;
  }

  lemma {:induction false} ReceivedAppend(a: seq<Outbound>, b: seq<Outbound>, r: int)
    ensures Received(a + b, r) == Received(a, r) + Received(b, r)
    decreases |b|
  {
    if b != [] {
      var b0, x := b[..|b| - 1], b[|b| - 1];
      var extra := if x.recipient == r then [x.payload] else [];
      assert b == b0 + [x];
      assert a + b == (a + b0) + [x];
      calc {
        Received(a + b, r);
        { ReceivedSnoc(a + b0, x, r); }
        Received(a + b0, r) + extra;
        { ReceivedAppend(a, b0, r); }
        Received(a, r) + Received(b0, r) + extra;
        { ReceivedSnoc(b0, x, r); }
        Received(a, r) + Received(b, r);
      }
    } else {
      assert a + b == a;
    }
  }

  // ---------------------------------------------------------------------------
  // Recipient lists.

  /** The members other than `me`, in member order: `if uid != userid`. */
  function Others(members: seq<int>, me: int): (r: seq<int>)
    ensures forall x {:trigger x in r} :: x in r <==> x in members && x != me
    ensures NoDup(members) ==> NoDup(r)
  {
    if members == [] then []
    else
      var init := Others(members[..|members| - 1], me);
      var last := members[|members| - 1];
      var r := init + (if last != me then [last] else []);
      assert NoDup(members) ==> NoDup(r) by {
        if NoDup(members) {
          assert last !in members[..|members| - 1];
          forall i, j | 0 <= i < j < |r| ensures r[i] != r[j] {
            if j == |init| {
              assert r[i] == init[i] && init[i] in init;
            }
          }
        }
      }
      r
  }

  lemma OthersSnoc(a: seq<int>, x: int, me: int)
    ensures Others(a + [x], me) == Others(a, me) + (if x != me then [x] else [])
  {
    assert (a + [x])[..|a|] == a;
  }

  lemma {:induction false} OthersAppend(a: seq<int>, b: seq<int>, me: int)
    ensures Others(a + b, me) == Others(a, me) + Others(b, me)
    decreases |b|
  {
    if b != [] {
      var b0, x := b[..|b| - 1], b[|b| - 1];
      assert b == b0 + [x];
      assert a + b == (a + b0) + [x];
      OthersSnoc(a + b0, x, me);
      OthersSnoc(b0, x, me);
      OthersAppend(a, b0, me);
    } else {
      assert a + b == a;
    }
  }

  /** The index of the first id that is not a key, or the length when all are. */
  function FirstUnregistered(ids: seq<int>, keys: set<int>): (k: nat)
    ensures k <= |ids|
    ensures forall j :: 0 <= j < k ==> ids[j] in keys
    ensures k < |ids| ==> ids[k] !in keys
  {
    if ids == [] then 0
    else if ids[0] !in keys then 0
    else 1 + FirstUnregistered(ids[1..], keys)
  }

  /** The first unregistered id is pinned down by the ids before it being registered. */
  lemma FirstUnregisteredAt(ids: seq<int>, keys: set<int>, n: nat)
    requires n <= |ids| && forall j :: 0 <= j < n ==> ids[j] in keys
    requires n < |ids| ==> ids[n] !in keys
    ensures FirstUnregistered(ids, keys) == n
  {
    var k := FirstUnregistered(ids, keys);
    if k < n {
      assert false;
    } else if n < k {
      assert false;
    }
  }

  /** The recipients a loop over `s[..i]` has reached are a prefix of all of them, and
      when `s[i]` is not `me` it is the next one. */
  lemma OthersPrefix(s: seq<int>, i: nat, me: int)
    requires i < |s|
    ensures var p, q := Others(s[..i], me), Others(s[..i + 1], me);
      && q == p + (if s[i] != me then [s[i]] else [])
      && |q| <= |Others(s, me)| && q == Others(s, me)[..|q|]
  {
    assert s[..i + 1] == s[..i] + [s[i]];
    OthersSnoc(s[..i], s[i], me);
    assert s == s[..i + 1] + s[i + 1..];
    OthersAppend(s[..i + 1], s[i + 1..], me);
  }

  // ---------------------------------------------------------------------------
  // Fan-out patterns.

  /** The same payload to each of `ids`, in order. */
  function Fan(ids: seq<int>, p: Payload, now: int): (r: seq<Outbound>)
    ensures |r| == |ids|
    ensures forall j {:trigger r[j]} :: 0 <= j < |ids| ==> r[j] == Outbound(ids[j], p, now)
  {
    if ids == [] then [] else Fan(ids[..|ids| - 1], p, now) + [Outbound(ids[|ids| - 1], p, now)]
  }

  /** Every one of `ids` has a handle. */
  predicate AllIn(ids: seq<int>, handles: map<int, string>) {
    forall j :: 0 <= j < |ids| ==> ids[j] in handles
  }

  /** The `newhandle` of each of `ids`, each carrying that member's handle and id. */
  function HandlesOf(ids: seq<int>, handles: map<int, string>): (r: seq<Payload>)
    requires AllIn(ids, handles)
    ensures |r| == |ids|
    ensures forall j {:trigger r[j]} :: 0 <= j < |ids| ==> r[j] == NewHandle(handles[ids[j]], ids[j])
  {
    if ids == [] then [] else HandlesOf(ids[..|ids| - 1], handles) + [NewHandle(handles[ids[|ids| - 1]], ids[|ids| - 1])]
  }

  /** The roster a joiner is sent: the `newhandle` of each of `ids`, all to `joiner`. */
  function Roster(joiner: int, ids: seq<int>, handles: map<int, string>, now: int): (r: seq<Outbound>)
    requires AllIn(ids, handles)
    ensures |r| == |ids|
    ensures forall j {:trigger r[j]} :: 0 <= j < |ids| ==> r[j] == Outbound(joiner, NewHandle(handles[ids[j]], ids[j]), now)
  {
    if ids == [] then [] else Roster(joiner, ids[..|ids| - 1], handles, now) + [Outbound(joiner, NewHandle(handles[ids[|ids| - 1]], ids[|ids| - 1]), now)]
  }

  lemma FanSnoc(ids: seq<int>, x: int, p: Payload, now: int)
    ensures Fan(ids + [x], p, now) == Fan(ids, p, now) + [Outbound(x, p, now)]
  {
    assert (ids + [x])[..|ids|] == ids;
  }

  lemma AllInSnoc(ids: seq<int>, x: int, handles: map<int, string>)
    requires AllIn(ids, handles) && x in handles
    ensures AllIn(ids + [x], handles)
  {
  }

  lemma RosterSnoc(joiner: int, ids: seq<int>, x: int, handles: map<int, string>, now: int)
    requires AllIn(ids, handles) && x in handles
    ensures AllIn(ids + [x], handles)
    ensures Roster(joiner, ids + [x], handles, now) == Roster(joiner, ids, handles, now) + [Outbound(joiner, NewHandle(handles[x], x), now)]
  {
    assert (ids + [x])[..|ids|] == ids;
  }

  /** Everything a join sends when it runs to the end: the roster to the joiner, then
      the tree to the joiner, then the joiner's handle to each other member. */
  function JoinSends(joiner: int, others: seq<int>, handles: map<int, string>, handle: string,
                     tree: Tree<Message>, now: int): (r: seq<Outbound>)
    requires AllIn(others, handles)
    ensures |r| == 2 * |others| + 1 && r[|others|] == Outbound(joiner, FullTree(tree), now)
  {
    Roster(joiner, others, handles, now) + [Outbound(joiner, FullTree(tree), now)] + Fan(others, NewHandle(handle, joiner), now)
  }

  // ---------------------------------------------------------------------------
  // The sending loops, member by member.

  /** How far a loop over `members` that skips `me` gets: the recipients it reaches,
      in member order, and how it ends. It stops with KeyError at the first recipient
      that is not registered. */
  function Reach(members: seq<int>, me: int, registered: set<int>): (r: (Outcome, seq<int>))
    ensures r.0.Raised? ==> r.0.exc.KeyError?
    decreases |members|
  {
    if members == [] then (Done, [])
    else
      var (o, reached) := Reach(members[..|members| - 1], me, registered);
      var uid := members[|members| - 1];
      if o.Raised? || uid == me then (o, reached)
      else if uid !in registered then (Raised(KeyError(VInt(uid))), reached)
      else (Done, reached + [uid])
  }

  /** Once the loop has raised, the later members change nothing. */
  lemma {:induction false} ReachStops(members: seq<int>, me: int, registered: set<int>, k: nat)
    requires k <= |members| && Reach(members[..k], me, registered).0.Raised?
    ensures Reach(members, me, registered) == Reach(members[..k], me, registered)
    decreases |members| - k
  {
    if k < |members| {
      assert members[..k + 1][..k] == members[..k];
      ReachStops(members, me, registered, k + 1);
    } else {
      assert members[..k] == members;
    }
  }

  /** Appending one id moves the first unregistered index only when all ids before were
      registered. */
  lemma FirstUnregisteredSnoc(ids: seq<int>, x: int, keys: set<int>)
    ensures FirstUnregistered(ids + [x], keys) ==
              if FirstUnregistered(ids, keys) < |ids| then FirstUnregistered(ids, keys)
              else if x in keys then |ids| + 1 else |ids|
  {
    var k := FirstUnregistered(ids, keys);
    var s := ids + [x];
    if k < |ids| {
      FirstUnregisteredAt(s, keys, k);
    } else if x in keys {
      FirstUnregisteredAt(s, keys, |ids| + 1);
    } else {
      FirstUnregisteredAt(s, keys, |ids|);
    }
  }

  /** The loop reaches the members other than `me` in member order up to the first one
      that is not registered, and raises KeyError for that one if there is one. */
  lemma {:induction false} ReachIsPrefix(members: seq<int>, me: int, registered: set<int>)
    ensures var others := Others(members, me);
      var k := FirstUnregistered(others, registered);
      Reach(members, me, registered) == (if k < |others| then Raised(KeyError(VInt(others[k]))) else Done, others[..k])
    decreases |members|
  {
    if members != [] {
      var init, uid := members[..|members| - 1], members[|members| - 1];
      ReachIsPrefix(init, me, registered);
      OthersSnoc(init, uid, me);
      assert members == init + [uid];
      var o0 := Others(init, me);
      var k0 := FirstUnregistered(o0, registered);
      var others := Others(members, me);
      if k0 < |o0| {
        FirstUnregisteredSnoc(o0, uid, registered);
        assert others[..k0] == o0[..k0] && others[k0] == o0[k0];
      } else if uid == me {
        assert others == o0;
      } else if uid !in registered {
        FirstUnregisteredSnoc(o0, uid, registered);
        assert others[..k0] == o0[..k0] && others[k0] == uid;
      } else {
        FirstUnregisteredSnoc(o0, uid, registered);
        assert others[..k0 + 1] == o0[..k0] + [uid];
      }
    }
  }

  /** The loop runs to the end exactly when every other member is registered, and then
      it has reached all of them. */
  lemma ReachCompletes(members: seq<int>, me: int, registered: set<int>)
    ensures Reach(members, me, registered).0.Done? <==> forall x :: x in members && x != me ==> x in registered
    ensures Reach(members, me, registered).0.Done? ==> Reach(members, me, registered).1 == Others(members, me)
  {
    ReachIsPrefix(members, me, registered);
    var others := Others(members, me);
    var k := FirstUnregistered(others, registered);
    if k < |others| {
      assert others[k] in others;
    } else {
      assert others[..k] == others;
      forall x | x in members && x != me ensures x in registered {
        assert x in others;
        var j :| 0 <= j < |others| && others[j] == x;
      }
    }
  }

  /** Every id before the first unregistered one has a handle. */
  lemma RegisteredPrefix(ids: seq<int>, handles: map<int, string>)
    ensures AllIn(ids[..FirstUnregistered(ids, handles.Keys)], handles)
  {
    var k := FirstUnregistered(ids, handles.Keys);
    forall j | 0 <= j < k ensures ids[..k][j] in handles {
      assert ids[..k][j] == ids[j];
    }
  }

  // ---------------------------------------------------------------------------
  // Who receives what.

  /** Each listed recipient gets the payload once, nobody else gets anything. */
  lemma {:induction false} FanReceived(ids: seq<int>, p: Payload, now: int, r: int)
    requires NoDup(ids)
    ensures Received(Fan(ids, p, now), r) == if r in ids then [p] else []
    decreases |ids|
  {
    if ids != [] {
      var init := ids[..|ids| - 1];
      assert Fan(ids, p, now)[..|ids| - 1] == Fan(init, p, now);
      assert ids[|ids| - 1] !in init;
      FanReceived(init, p, now, r);
    }
  }

  /** The roster goes to the joiner only, one `newhandle` per listed member, in order. */
  lemma {:induction false} RosterReceived(joiner: int, ids: seq<int>, handles: map<int, string>, now: int, r: int)
    requires AllIn(ids, handles)
    ensures Received(Roster(joiner, ids, handles, now), r) == if r == joiner then HandlesOf(ids, handles) else []
    decreases |ids|
  {
    if ids != [] {
      var init := ids[..|ids| - 1];
      assert Roster(joiner, ids, handles, now)[..|ids| - 1] == Roster(joiner, init, handles, now);
      RosterReceived(joiner, init, handles, now, r);
    }
  }

  /** A join delivers, to the joiner, the `newhandle` of every other member in member
      order and then exactly one `fulltree`, never its own handle; to every other member
      exactly one `newhandle` for the joiner; to anyone else nothing. */
  lemma JoinDelivery(members: seq<int>, joiner: int, handles: map<int, string>, handle: string,
                     tree: Tree<Message>, now: int)
    requires NoDup(members) && AllIn(Others(members, joiner), handles)
    ensures var others := Others(members, joiner);
      var out := JoinSends(joiner, others, handles, handle, tree, now);
      && Received(out, joiner) == HandlesOf(others, handles) + [FullTree(tree)]
      && (forall h :: NewHandle(h, joiner) !in Received(out, joiner))
      && (forall x :: x in members && x != joiner ==> Received(out, x) == [NewHandle(handle, joiner)])
      && (forall x :: x !in members && x != joiner ==> Received(out, x) == [])
  {
    var others := Others(members, joiner);
    forall x {
      JoinReceived(joiner, others, handles, handle, tree, now, x);
    }
    forall j | 0 <= j < |others| ensures HandlesOf(others, handles)[j].userid != joiner {
      assert others[j] in others;
    }
  }

  lemma JoinReceived(joiner: int, others: seq<int>, handles: map<int, string>, handle: string,
                     tree: Tree<Message>, now: int, x: int)
    requires NoDup(others) && joiner !in others && AllIn(others, handles)
    ensures Received(JoinSends(joiner, others, handles, handle, tree, now), x) ==
              (if x == joiner then HandlesOf(others, handles) + [FullTree(tree)]
               else if x in others then [NewHandle(handle, joiner)] else [])
  {
    var roster := Roster(joiner, others, handles, now);
    var fan := Fan(others, NewHandle(handle, joiner), now);
    var last := Outbound(joiner, FullTree(tree), now);
    var head := roster + [last];
    assert JoinSends(joiner, others, handles, handle, tree, now) == head + fan;
    ReceivedAppend(head, fan, x);
    ReceivedSnoc(roster, last, x);
    RosterReceived(joiner, others, handles, now, x);
    FanReceived(others, NewHandle(handle, joiner), now, x);
  }

  /** A departure delivers exactly one `removehandle` for the leaver to each other
      member, and nothing to the leaver or to anyone outside the topic. */
  lemma DepartureDelivery(members: seq<int>, leaver: int, now: int)
    requires NoDup(members)
    ensures var out := Fan(Others(members, leaver), RemoveHandle(leaver), now);
      && (forall x :: x in members && x != leaver ==> Received(out, x) == [RemoveHandle(leaver)])
      && (forall x :: x !in members || x == leaver ==> Received(out, x) == [])
  {
    forall x {
      FanReceived(Others(members, leaver), RemoveHandle(leaver), now, x);
    }
  }
}
