/**
 * The cluster membership manager of internal/cluster/cluster.go: a node list
 * and a consistent-hash ring of node IDs, updated together. The ring's hashing
 * is abstract: the ring is its set of hosts, and its lookup either reports
 * that no host exists or hands back one of the hosts.
 */
module Cluster {

  import opened Wrappers

  /** A cluster member; identity is `id`, `addr` is routing metadata only. */
  datatype Node = Node(id: string, addr: string)

  /** The one error the ring reports: a lookup with no hosts (ErrNoHosts). */
  datatype Error = NoHosts

  /** The ring's hash-based choice of a host for a key. */
  type Picker = (set<string>, string) -> string

  /** What the ring's hashing is assumed to guarantee: the chosen host is one of the hosts. */
  ghost predicate PicksMember(pick: Picker) {
    forall hosts: set<string>, key: string :: hosts != {} ==> pick(hosts, key) in hosts
  }

  /** The ring's `Get`: no hosts is an error, otherwise the hash picks a host. */
  function RingGet(hosts: set<string>, key: string, pick: Picker): (r: Result<string, Error>)
    requires PicksMember(pick)
    ensures r.Err? <==> hosts == {}
    ensures r.Ok? ==> r.value in hosts
  {
    if hosts == {} then Err(NoHosts) else Ok(pick(hosts, key))
  }

  /** The IDs carried by a node list. */
  function Ids(nodes: seq<Node>): set<string> {
    set i | 0 <= i < |nodes| :: nodes[i].id
  }

  predicate UniqueIds(nodes: seq<Node>) {
    forall i, j :: 0 <= i < j < |nodes| ==> nodes[i].id != nodes[j].id
  }

  /** `id` is carried by at least two list entries. */
  predicate IdRepeated(nodes: seq<Node>, id: string) {
    exists i, j :: 0 <= i < j < |nodes| && nodes[i].id == id && nodes[j].id == id
  }

  /** The position of the first node carrying `id`, or `|nodes|` when none does. */
  function FirstIndexOf(nodes: seq<Node>, id: string): (i: nat)
    ensures i <= |nodes|
    ensures i < |nodes| ==> nodes[i].id == id
    ensures forall j :: 0 <= j < i ==> nodes[j].id != id
  {
    if nodes == [] then 0
    else if nodes[0].id == id then 0
    else 1 + FirstIndexOf(nodes[1..], id)
  }

  /** The first node carrying `id`, if any. */
  function FindFirst(nodes: seq<Node>, id: string): (r: Option<Node>)
    ensures r.Some? <==> id in Ids(nodes)
    ensures r.Some? ==> r.value.id == id && r.value in nodes
    ensures r.Some? ==> FirstIndexOf(nodes, id) < |nodes| && r.value == nodes[FirstIndexOf(nodes, id)]
  {
    var i := FirstIndexOf(nodes, id);
    if i < |nodes| then Some(nodes[i]) else None
  }

  /** The list with its first node carrying `id` spliced out, the rest in order. */
  function RemoveFirst(nodes: seq<Node>, id: string): (r: seq<Node>)
    ensures |r| == if id in Ids(nodes) then |nodes| - 1 else |nodes|
    ensures id !in Ids(nodes) ==> r == nodes
  {
    var i := FirstIndexOf(nodes, id);
    if i < |nodes| then nodes[..i] + nodes[i + 1..] else nodes
  }

  /** Appending keeps IDs unique exactly when the new ID is fresh; the ID set grows by it. */
  lemma AppendIds(nodes: seq<Node>, node: Node)
    ensures Ids(nodes + [node]) == Ids(nodes) + {node.id}
    ensures UniqueIds(nodes + [node]) <==> UniqueIds(nodes) && node.id !in Ids(nodes)
  {
    var s := nodes + [node];
    assert s[|nodes|].id == node.id;
    forall x | x in Ids(nodes)
      ensures x in Ids(s)
    {
      var i :| 0 <= i < |nodes| && nodes[i].id == x;
      assert s[i].id == x;
    }
    assert forall i :: 0 <= i < |nodes| ==> s[i] == nodes[i];
    if UniqueIds(nodes) && node.id !in Ids(nodes) {
      forall i, j | 0 <= i < j < |s|
        ensures s[i].id != s[j].id
      {
        assert nodes[i].id in Ids(nodes);
      }
    }
  }

  /**
   * Splicing out the first `id` removes `id` from the ID set exactly when no
   * second node carries it; with a repeated ID a copy stays behind.
   */
  lemma RemoveFirstIds(nodes: seq<Node>, id: string)
    ensures Ids(RemoveFirst(nodes, id)) == Ids(nodes) - {id} <==> !IdRepeated(nodes, id)
    ensures UniqueIds(nodes) ==> UniqueIds(RemoveFirst(nodes, id))
  {
    var i := FirstIndexOf(nodes, id);
    var r := RemoveFirst(nodes, id);
    if i < |nodes| {
      assert forall j :: 0 <= j < i ==> r[j] == nodes[j];
      assert forall j :: i <= j < |r| ==> r[j] == nodes[j + 1];
      if IdRepeated(nodes, id) {
        var a, b :| 0 <= a < b < |nodes| && nodes[a].id == id && nodes[b].id == id;
        assert r[b - 1].id == id;
        assert id in Ids(r);
      } else {
        forall x | x in Ids(r)
          ensures x in Ids(nodes) - {id}
        {
          var j :| 0 <= j < |r| && r[j].id == x;
          if j >= i {
            assert nodes[j + 1].id == x;
          }
        }
        forall x | x in Ids(nodes) - {id}
          ensures x in Ids(r)
        {
          var j :| 0 <= j < |nodes| && nodes[j].id == x;
          if j < i {
            assert r[j].id == x;
          } else {
            assert r[j - 1].id == x;
          }
        }
      }
      if UniqueIds(nodes) {
        forall a, b | 0 <= a < b < |r|
          ensures r[a].id != r[b].id
        {
          var a', b' := if a < i then a else a + 1, if b < i then b else b + 1;
          assert r[a] == nodes[a'] && r[b] == nodes[b'];
        }
      }
    } else {
      assert id !in Ids(nodes);
    }
  }

  /** `Manager`: the node list and the ring, owned together. */
  class Manager {

    var nodes: seq<Node>

    /** The ring, seen as its set of hosts. */
    var ring: set<string>

    /** The ring's hash-based choice, fixed for the manager's lifetime. */
    const pick: Picker

    ghost predicate Valid()
      reads this
    {
      PicksMember(pick)
    }

    /** The core invariant: the ring hosts exactly the listed IDs. */
    ghost predicate Synced()
      reads this
    {
      ring == Ids(nodes)
    }

    /** `NewManager`: keeps the given list and adds each node's ID to a fresh ring. */
    constructor (nodes: seq<Node>, pick: Picker)
      requires PicksMember(pick)
      ensures Valid() && Synced()
      ensures this.nodes == nodes && this.pick == pick
    {
      var c: set<string> := {};
      for i := 0 to |nodes|
        invariant c == Ids(nodes[..i])
      {
        AppendIds(nodes[..i], nodes[i]);
        assert nodes[..i + 1] == nodes[..i] + [nodes[i]];
        c := c + {nodes[i].id};
      }
      assert nodes[..|nodes|] == nodes;
      this.nodes := nodes;
      this.ring := c;
      this.pick := pick;
    }

    /** The current list; never fails. */
    method Nodes() returns (ns: seq<Node>, err: Option<Error>)
      ensures ns == nodes && err == None
    {
      return nodes, None;
    }

    /** Appends the node and adds its ID to the ring; a duplicate ID is kept, not refused. */
    method AddNode(node: Node) returns (err: Option<Error>)
      requires Valid()
      modifies this
      ensures Valid() && err == None
      ensures nodes == old(nodes) + [node]
      ensures ring == old(ring) + {node.id}
      ensures old(Synced()) ==> Synced()
      ensures UniqueIds(nodes) <==> old(UniqueIds(nodes)) && node.id !in old(Ids(nodes))
    {
      AppendIds(nodes, node);
      nodes := nodes + [node];
      ring := ring + {node.id};
      err := None;
    }

    /**
     * Splices out the first node carrying `node.id` and removes the ID from
     * the ring; removing an absent ID leaves the list as it was.
     */
    method RemoveNode(node: Node) returns (err: Option<Error>)
      requires Valid()
      modifies this
      ensures Valid() && err == None
      ensures nodes == RemoveFirst(old(nodes), node.id)
      ensures ring == old(ring) - {node.id}
      ensures old(Synced()) ==> (Synced() <==> !old(IdRepeated(nodes, node.id)))
      ensures old(UniqueIds(nodes)) ==> UniqueIds(nodes)
    {
      RemoveFirstIds(nodes, node.id);
      var i := 0;
      while i < |nodes|
        invariant 0 <= i <= |nodes|
        invariant nodes == old(nodes)
        invariant forall j :: 0 <= j < i ==> nodes[j].id != node.id
      {
        if nodes[i].id == node.id {
          nodes := nodes[..i] + nodes[i + 1..];
          break;
        }
        i := i + 1;
      }
      ring := ring - {node.id};
      err := None;
    }

    /**
     * The node owning `key`: the ring's error when it has no hosts, otherwise
     * the first listed node with the chosen ID, or none when the list has none.
     */
    method GetNode(key: string) returns (n: Option<Node>, err: Option<Error>)
      requires Valid()
      ensures RingGet(ring, key, pick).Err? ==> n == None && err == Some(RingGet(ring, key, pick).error)
      ensures RingGet(ring, key, pick).Ok? ==> err == None && n == FindFirst(nodes, RingGet(ring, key, pick).value)
      ensures ring == {} ==> n == None && err == Some(NoHosts)
      ensures n.Some? ==> n.value in nodes && n.value.id in ring
      ensures Synced() && ring != {} ==> n.Some? && err == None
    {
      var r := RingGet(ring, key, pick);
      if r.Err? {
        return None, Some(r.error);
      }
      var nodeID := r.value;
      for i := 0 to |nodes|
        invariant forall j :: 0 <= j < i ==> nodes[j].id != nodeID
      {
        if nodes[i].id == nodeID {
          return Some(nodes[i]), None;
        }
      }
      return None, None;
    }
  }
}

/** What callers of the cluster manager can rely on, derived from its contracts alone. */
module ClusterClients {

  import opened Wrappers
  import opened Cluster

  /** A manager with no nodes answers every lookup with the ring's no-hosts error. */
  method EmptyClusterFails(pick: Picker, key: string) returns (n: Option<Node>, err: Option<Error>)
    requires PicksMember(pick)
    ensures n == None && err == Some(NoHosts)
  {
    var m := new Manager([], pick);
    n, err := m.GetNode(key);
  }

  /** Lookups are deterministic: with no membership change in between, they agree. */
  method RepeatedLookupAgrees(m: Manager, key: string) returns (n1: Option<Node>, n2: Option<Node>)
    requires m.Valid()
    ensures n1 == n2
  {
    var e1, e2;
    n1, e1 := m.GetNode(key);
    n2, e2 := m.GetNode(key);
  }

  /**
   * Two nodes sharing an ID, one removal: a copy stays listed while the ID
   * has left the ring, and lookups then find no node without an error.
   */
  method DuplicateIdDesync(pick: Picker, key: string)
    returns (listed: seq<Node>, hosts: set<string>, n: Option<Node>, err: Option<Error>)
    requires PicksMember(pick)
    ensures listed == [Node("a", "addr-2")] && hosts == {}
    ensures n == None && err == Some(NoHosts)
  {
    var m := new Manager([Node("a", "addr-1")], pick);
    var e := m.AddNode(Node("a", "addr-2"));
    e := m.RemoveNode(Node("a", ""));
    listed := m.nodes;
    hosts := m.ring;
    n, err := m.GetNode(key);
  }
}
