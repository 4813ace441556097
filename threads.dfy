/** The threaded message structure both message-tree classes keep: the ids of the root
    messages in display order, each message's ordered child ids, and the nodes by id.
    `Attach` is the one step both `add_message` methods perform once they hold a node. */
module Threads {
  import opened Values

  /** A message whose parent id is this sentinel is a root message. */
  const PARENTID_ROOT: int := -1

  datatype Tree<N> = Tree(rootnodes: seq<int>, children: map<int, seq<int>>, messages: map<int, N>)

  function Empty<N>(): Tree<N> {
    Tree([], map[], map[])
  }

  /** Adds node `n` with id `id` under `parentid`: a root message goes to the end of the
      root order, a reply to the end of its parent's child list; an unknown parent raises
      KeyError before anything changes. The new id always gets an empty child list, so a
      re-used id loses the replies recorded under it. */
  function Attach<N>(t: Tree<N>, id: int, parentid: int, n: N): (r: Result<Tree<N>>)
    ensures r.Err? <==> parentid != PARENTID_ROOT && parentid !in t.children
    ensures r.Err? ==> r.exc == KeyError(VInt(parentid))
    ensures r.Ok? ==> r.value.rootnodes == if parentid == PARENTID_ROOT then t.rootnodes + [id] else t.rootnodes
    ensures r.Ok? ==> r.value.children.Keys == t.children.Keys + {id} && r.value.children[id] == []
    ensures r.Ok? && parentid != PARENTID_ROOT && parentid != id ==>
              r.value.children[parentid] == t.children[parentid] + [id]
    ensures r.Ok? ==> forall k :: k in t.children && k != id && (parentid == PARENTID_ROOT || k != parentid) ==> r.value.children[k] == t.children[k]
    ensures r.Ok? ==> r.value.messages.Keys == t.messages.Keys + {id} && r.value.messages[id] == n
    ensures r.Ok? ==> forall k :: k in t.messages && k != id ==> r.value.messages[k] == t.messages[k]
  {
    if parentid == PARENTID_ROOT then
      Ok(Tree(t.rootnodes + [id], t.children[id := []], t.messages[id := n]))
    else if parentid in t.children then
      Ok(Tree(t.rootnodes, t.children[parentid := t.children[parentid] + [id]][id := []], t.messages[id := n]))
    else
      Err(KeyError(VInt(parentid)))
  }
}
