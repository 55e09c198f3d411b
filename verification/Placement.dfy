/** Round-robin placement of partition replicas on nodes, and what the nodes derive from it:
    who leads a partition, where a publish is sent, and who its followers are. */
module Placement {
  import opened Arithmetic
  import opened Bytes

  datatype Node = Node(id: string, address: string)
  datatype Role = Leader | Follower
  datatype Replica = Replica(nodeID: string, role: Role)
  datatype Partition = Partition(id: int, replicas: seq<Replica>)

  // ---------------------------------------------------------------- assignment

  function Min(a: int, b: int): int {
    if a < b then a else b
  }

  function ReplicaAt(nodes: seq<Node>, p: int, i: int): Replica
    requires nodes != []
  {
    Replica(nodes[(p + i) % |nodes|].id, if i == 0 then Leader else Follower)
  }

  function PartitionAt(nodes: seq<Node>, factor: nat, p: int): Partition
    requires nodes != []
  {
    Partition(p, seq(factor, i requires 0 <= i < factor => ReplicaAt(nodes, p, i)))
  }

  /** The assignment as a table. */
  function Assignment(nodes: seq<Node>, partitions: int, factor: int): seq<Partition> {
    if partitions <= 0 || factor <= 0 || nodes == [] then []
    else seq(partitions, p requires 0 <= p < partitions => PartitionAt(nodes, Min(factor, |nodes|), p))
  }

  /** Replica i of partition p is on node (p + i) mod N, the first one as leader; there are no
      more replicas than nodes. */
  method AssignPartitions(nodes: seq<Node>, partitionCount: int, replicationFactor: int) returns (r: seq<Partition>)
    ensures r == Assignment(nodes, partitionCount, replicationFactor)
    ensures partitionCount <= 0 || replicationFactor <= 0 || nodes == [] ==> r == []
    ensures partitionCount > 0 && replicationFactor > 0 && nodes != [] ==>
      && |r| == partitionCount
      && forall p :: 0 <= p < partitionCount ==>
           && r[p].id == p
           && |r[p].replicas| == (if replicationFactor <= |nodes| then replicationFactor else |nodes|)
           && forall i :: 0 <= i < |r[p].replicas| ==>
                r[p].replicas[i] == Replica(nodes[(p + i) % |nodes|].id, if i == 0 then Leader else Follower)
  {
    if partitionCount <= 0 || replicationFactor <= 0 || |nodes| == 0 {
      return [];
    }
    var factor := replicationFactor;
    if factor > |nodes| {
      factor := |nodes|;
    }
    r := [];
    for p := 0 to partitionCount
      invariant |r| == p
      invariant forall q :: 0 <= q < p ==> r[q] == PartitionAt(nodes, factor, q)
    {
      var replicas := [];
      for i := 0 to factor
        invariant |replicas| == i
        invariant forall k :: 0 <= k < i ==> replicas[k] == ReplicaAt(nodes, p, k)
      {
        var role := Follower;
        if i == 0 {
          role := Leader;
        }
        replicas := replicas + [Replica(nodes[(p + i) % |nodes|].id, role)];
      }
      assert replicas == PartitionAt(nodes, factor, p).replicas;
      r := r + [Partition(p, replicas)];
    }
  }

  // ---------------------------------------------------------------- the ring

  /** Replica number i of partition p is on node j exactly when i is the distance from p to
      j around the ring. */
  lemma RingDistance(p: int, i: int, j: int, n: int)
    requires n > 0 && 0 <= i < n && 0 <= j < n
    ensures (p + i) % n == j <==> i == (j - p) % n
  {
    if (p + i) % n == j {
      var q := (p + i) / n;
      assert j - p == -q * n + i;
      ModUnique(j - p, n, -q, i);
    }
    if i == (j - p) % n {
      var q := (j - p) / n;
      assert p + i == -q * n + j;
      ModUnique(p + i, n, -q, j);
    }
  }

  // ---------------------------------------------------------------- replicas of one partition

  ghost predicate DistinctIDs(nodes: seq<Node>) {
    forall i, j :: 0 <= i < j < |nodes| ==> nodes[i].id != nodes[j].id
  }

  /** Every partition has min(factor, nodes) replicas on distinct nodes, the first of which,
      and no other, is the leader. */
  lemma ReplicasDistinct(nodes: seq<Node>, partitions: int, factor: int, p: int)
    requires DistinctIDs(nodes) && nodes != [] && factor > 0 && 0 <= p < partitions
    ensures |Assignment(nodes, partitions, factor)| == partitions
    ensures var part := Assignment(nodes, partitions, factor)[p];
      && part.id == p
      && |part.replicas| == (if factor <= |nodes| then factor else |nodes|)
      && (forall i, k :: 0 <= i < k < |part.replicas| ==> part.replicas[i].nodeID != part.replicas[k].nodeID)
      && (forall i :: 0 <= i < |part.replicas| ==> (part.replicas[i].role == Leader <==> i == 0))
  {
    var part := Assignment(nodes, partitions, factor)[p];
    var n := |nodes|;
    forall i, k | 0 <= i < k < |part.replicas|
      ensures part.replicas[i].nodeID != part.replicas[k].nodeID
    {
      var j := (p + i) % n;
      RingDistance(p, i, j, n);
      RingDistance(p, k, j, n);
      assert part.replicas[i].nodeID == nodes[j].id && part.replicas[k].nodeID == nodes[(p + k) % n].id;
    }
  }

  predicate HoldsReplica(part: Partition, id: string) {
    exists i :: 0 <= i < |part.replicas| && part.replicas[i].nodeID == id
  }

  predicate Leads(part: Partition, id: string) {
    part.replicas != [] && part.replicas[0].nodeID == id && part.replicas[0].role == Leader
  }

  /** Which partitions a node holds and leads, by its position in the node list. */
  lemma HeldByDistance(nodes: seq<Node>, factor: nat, p: int, j: nat)
    requires DistinctIDs(nodes) && j < |nodes| && 0 < factor <= |nodes|
    ensures HoldsReplica(PartitionAt(nodes, factor, p), nodes[j].id) <==> (j - p) % |nodes| < factor
    ensures Leads(PartitionAt(nodes, factor, p), nodes[j].id) <==> (j - p) % |nodes| < 1
  {
    var part, n := PartitionAt(nodes, factor, p), |nodes|;
    forall i | 0 <= i < factor
      ensures part.replicas[i].nodeID == nodes[j].id <==> i == (j - p) % n
    {
      RingDistance(p, i, j, n);
      assert part.replicas[i].nodeID == nodes[(p + i) % n].id;
    }
    var d := (j - p) % n;
    if d < factor { assert part.replicas[d].nodeID == nodes[j].id; }
  }

  // ---------------------------------------------------------------- balance

  /** Partition p lies at a distance below f from node j. */
  predicate Close(j: int, n: int, f: int, p: int)
    requires n > 0
  {
    (j - p) % n < f
  }

  lemma ClosePeriodic(j: int, n: int, f: int, p: int)
    requires n > 0
    ensures Close(j, n, f, p + n) == Close(j, n, f, p)
  {
    var x := j - p;
    assert x - n == (x / n - 1) * n + x % n;
    ModUnique(x - n, n, x / n - 1, x % n);
  }

  lemma CloseInWindow(j: int, n: int, f: int, i: int)
    requires n > 0 && 0 <= i < n
    ensures Close(j, n, f, j - i) <==> i < f
  {
    ModUnique(i, n, 0, i);
  }

  /** How many of the partitions lo, ..., lo + count - 1 are close to j. */
  function Near(j: int, n: int, f: int, lo: int, count: nat): nat
    requires n > 0
  {
    if count == 0 then 0
    else Near(j, n, f, lo, count - 1) + if Close(j, n, f, lo + count - 1) then 1 else 0
  }

  lemma {:induction false} NearSplit(j: int, n: int, f: int, lo: int, a: nat, b: nat)
    requires n > 0
    ensures Near(j, n, f, lo, a + b) == Near(j, n, f, lo, a) + Near(j, n, f, lo + a, b)
  {
    hide Close;
    if b > 0 { NearSplit(j, n, f, lo, a, b - 1); }
  }

  lemma NearOne(j: int, n: int, f: int, lo: int)
    requires n > 0
    ensures Near(j, n, f, lo, 1) == if Close(j, n, f, lo) then 1 else 0
  {
    hide Close;
    assert Near(j, n, f, lo, 0) == 0;
  }

  /** The window that ends at j: the last f partitions of it are close. */
  lemma {:induction false} NearBase(j: int, n: int, f: int, count: nat)
    requires 0 <= f <= n && n > 0 && count <= n
    ensures Near(j, n, f, j - n + 1, count) == if count <= n - f then 0 else count - (n - f)
  {
    hide Close;
    if count > 0 {
      NearBase(j, n, f, count - 1);
      CloseInWindow(j, n, f, n - count);
    }
  }

  /** Any n consecutive partitions have exactly f close to j. */
  lemma {:induction false} NearCycle(j: int, n: int, f: int, lo: int)
    requires 0 <= f <= n && n > 0 && lo >= j - n + 1
    ensures Near(j, n, f, lo, n) == f
    decreases lo - (j - n + 1)
  {
    hide Close;
    if lo == j - n + 1 {
      NearBase(j, n, f, n);
    } else {
      NearCycle(j, n, f, lo - 1);
      NearSplit(j, n, f, lo - 1, 1, n - 1);
      NearSplit(j, n, f, lo, n - 1, 1);
      NearOne(j, n, f, lo - 1);
      NearOne(j, n, f, lo + n - 1);
      ClosePeriodic(j, n, f, lo - 1);
    }
  }

  /** Over the first `count` partitions: f per full round, and at most f in the last. */
  lemma {:induction false} NearBalanced(j: int, n: int, f: int, count: nat, q: nat, rest: nat)
    requires 0 <= j < n && 0 <= f <= n && rest < n && count == q * n + rest
    ensures f * q <= Near(j, n, f, 0, count) <= f * (if rest == 0 then q else q + 1)
    decreases q
  {
    hide Near;
    if q > 0 {
      assert q * n == (q - 1) * n + n;
      var before := count - n;
      MultipleIsLarge(q - 1, n);
      NearBalanced(j, n, f, before, q - 1, rest);
      NearSplit(j, n, f, 0, before, n);
      NearCycle(j, n, f, before);
      assert f * q == f * (q - 1) + f;
      assert f * (q + 1) == f * q + f;
    } else {
      NearFirstRound(j, n, f, count);
    }
  }

  lemma NearFirstRound(j: int, n: int, f: int, count: nat)
    requires 0 <= j < n && 0 <= f <= n && count < n
    ensures Near(j, n, f, 0, count) <= f && (count == 0 ==> Near(j, n, f, 0, count) == 0)
  {
    hide Close;
    NearSplit(j, n, f, 0, count, n - count);
    NearCycle(j, n, f, 0);
  }

  function CeilDiv(x: nat, n: nat): nat
    requires n > 0
  {
    if x % n == 0 then x / n else x / n + 1
  }

  lemma NearFloorCeil(j: int, n: nat, f: int, count: nat)
    requires 0 <= j < n && 0 <= f <= n
    ensures f * (count / n) <= Near(j, n, f, 0, count) <= f * CeilDiv(count, n)
  {
    hide Near;
    NearBalanced(j, n, f, count, count / n, count % n);
  }

  ghost function HeldCount(parts: seq<Partition>, id: string): nat {
    if parts == [] then 0
    else HeldCount(parts[..|parts| - 1], id) + if HoldsReplica(parts[|parts| - 1], id) then 1 else 0
  }

  function LedCount(parts: seq<Partition>, id: string): nat {
    if parts == [] then 0
    else LedCount(parts[..|parts| - 1], id) + if Leads(parts[|parts| - 1], id) then 1 else 0
  }

  lemma {:induction false} CountsAreNear(nodes: seq<Node>, partitions: nat, factor: int, j: nat)
    requires DistinctIDs(nodes) && j < |nodes| && factor > 0
    ensures var parts := Assignment(nodes, partitions, factor);
      && HeldCount(parts, nodes[j].id) == Near(j, |nodes|, Min(factor, |nodes|), 0, partitions)
      && LedCount(parts, nodes[j].id) == Near(j, |nodes|, 1, 0, partitions)
  {
    if partitions > 0 {
      var parts := Assignment(nodes, partitions, factor);
      CountsAreNear(nodes, partitions - 1, factor, j);
      assert parts[..partitions - 1] == Assignment(nodes, partitions - 1, factor);
      HeldByDistance(nodes, Min(factor, |nodes|), partitions - 1, j);
    }
  }

  /** Each node holds between rf*floor(P/N) and rf*ceil(P/N) replicas, and leads between
      floor(P/N) and ceil(P/N) partitions. */
  lemma Balanced(nodes: seq<Node>, partitions: nat, factor: int, j: nat)
    requires DistinctIDs(nodes) && j < |nodes| && factor > 0
    ensures var parts, n := Assignment(nodes, partitions, factor), |nodes|;
      var rf := if factor <= n then factor else n;
      var held := set p | 0 <= p < |parts| && HoldsReplica(parts[p], nodes[j].id);
      var led := set p | 0 <= p < |parts| && IsLeader(parts, nodes[j].id, p);
      && rf * (partitions / n) <= |held| <= rf * ((partitions + n - 1) / n)
      && partitions / n <= |led| <= (partitions + n - 1) / n
  {
    CountsAreNear(nodes, partitions, factor, j);
    CeilIs(partitions, |nodes|);
    HeldIsNumber(Assignment(nodes, partitions, factor), nodes[j].id);
    LedIsNumber(nodes, partitions, factor, j);
    hide Near, Assignment, HeldCount, LedCount, DistinctIDs, CeilDiv;
    NearFloorCeil(j, |nodes|, Min(factor, |nodes|), partitions);
    NearFloorCeil(j, |nodes|, 1, partitions);
  }

  lemma CeilIs(x: nat, n: nat)
    requires n > 0
    ensures CeilDiv(x, n) == (x + n - 1) / n
  {
    DivMod(x, n);
    if x % n == 0 {
      DivUnique(x + n - 1, n, x / n, n - 1);
    } else {
      Distribute(x / n, 1, n);
      DivUnique(x + n - 1, n, x / n + 1, x % n - 1);
    }
  }

  lemma {:induction false} HeldIsNumber(parts: seq<Partition>, id: string)
    ensures HeldCount(parts, id) ==
      |set p | 0 <= p < |parts| && HoldsReplica(parts[p], id)|
  {
    var all := set p | 0 <= p < |parts| && HoldsReplica(parts[p], id);
    if parts == [] {
      assert all == {};
    } else {
      var n := |parts| - 1;
      var front := parts[..n];
      HeldIsNumber(front, id);
      var before := set p | 0 <= p < |front| && HoldsReplica(front[p], id);
      assert all == before + if HoldsReplica(parts[n], id) then {n} else {};
    }
  }

  lemma {:induction false} LeadsIsNumber(parts: seq<Partition>, id: string)
    ensures LedCount(parts, id) == |set p | 0 <= p < |parts| && Leads(parts[p], id)|
  {
    var all := set p | 0 <= p < |parts| && Leads(parts[p], id);
    if parts == [] {
      assert all == {};
    } else {
      var n := |parts| - 1;
      var front := parts[..n];
      LeadsIsNumber(front, id);
      var before := set p | 0 <= p < |front| && Leads(front[p], id);
      assert all == before + if Leads(parts[n], id) then {n} else {};
    }
  }

  /** Being the first replica is what the lookup sees. */
  lemma LedIsNumber(nodes: seq<Node>, partitions: nat, factor: int, j: nat)
    requires DistinctIDs(nodes) && j < |nodes| && factor > 0
    ensures var parts := Assignment(nodes, partitions, factor);
      LedCount(parts, nodes[j].id) == |set p | 0 <= p < |parts| && IsLeader(parts, nodes[j].id, p)|
  {
    var parts, id := Assignment(nodes, partitions, factor), nodes[j].id;
    LeadsIsNumber(parts, id);
    forall p | 0 <= p < |parts|
      ensures Leads(parts[p], id) <==> IsLeader(parts, id, p)
    {
      OneLeader(nodes, partitions, factor, p, j);
      HeldByDistance(nodes, Min(factor, |nodes|), p, j);
      RingDistance(p, 0, j, |nodes|);
    }
    assert (set p | 0 <= p < |parts| && Leads(parts[p], id)) == set p | 0 <= p < |parts| && IsLeader(parts, id, p);
  }

  /** Leader counts of any two nodes differ by at most one. */
  lemma LeadersEven(nodes: seq<Node>, partitions: nat, factor: int, i: nat, j: nat)
    requires DistinctIDs(nodes) && i < |nodes| && j < |nodes| && factor > 0
    ensures var parts := Assignment(nodes, partitions, factor);
      |set p | 0 <= p < |parts| && IsLeader(parts, nodes[i].id, p)| <=
        |set p | 0 <= p < |parts| && IsLeader(parts, nodes[j].id, p)| + 1
  {
    CeilIs(partitions, |nodes|);
    hide Assignment, IsLeader, HoldsReplica, DistinctIDs;
    Balanced(nodes, partitions, factor, i);
    Balanced(nodes, partitions, factor, j);
  }

  // ---------------------------------------------------------------- who leads

  function FindPartition(parts: seq<Partition>, p: int): Option<Partition> {
    if parts == [] then None
    else if parts[0].id == p then Some(parts[0])
    else FindPartition(parts[1..], p)
  }

  function FirstLeader(replicas: seq<Replica>): Option<string> {
    if replicas == [] then None
    else if replicas[0].role == Leader then Some(replicas[0].nodeID)
    else FirstLeader(replicas[1..])
  }

  function LeaderNodeID(parts: seq<Partition>, p: int): Option<string> {
    var part :- FindPartition(parts, p);
    FirstLeader(part.replicas)
  }

  function RoleOf(replicas: seq<Replica>, id: string): Option<Role> {
    if replicas == [] then None
    else if replicas[0].nodeID == id then Some(replicas[0].role)
    else RoleOf(replicas[1..], id)
  }

  predicate IsLeader(parts: seq<Partition>, id: string, p: int) {
    var part := FindPartition(parts, p);
    part.Some? && RoleOf(part.value.replicas, id) == Some(Leader)
  }

  function FindNode(nodes: seq<Node>, id: string): Option<Node> {
    if nodes == [] then None
    else if nodes[0].id == id then Some(nodes[0])
    else FindNode(nodes[1..], id)
  }

  /** The hash picks an entry of the partition list. */
  function Route(hash: nat, parts: seq<Partition>): Option<int> {
    if parts == [] then None else Some(parts[hash % |parts|].id)
  }

  datatype Where = Local | Remote(node: Node) | NoPartitions | LeaderNotFound

  /** Where a node sends a publish. */
  function PartitionLeader(nodes: seq<Node>, parts: seq<Partition>, self: string, hash: nat): Where {
    match Route(hash, parts)
    case None => NoPartitions
    case Some(p) =>
      if IsLeader(parts, self, p) then Local
      else match LeaderNodeID(parts, p)
        case None => LeaderNotFound
        case Some(id) =>
          match FindNode(nodes, id)
          case None => LeaderNotFound
          case Some(node) => Remote(node)
  }

  /** For any table: a node sees itself as leader of a partition exactly when the first entry
      for that partition lists it, first of all replicas with its ID, as leader. */
  lemma IsLeaderMeans(parts: seq<Partition>, id: string, p: int)
    ensures IsLeader(parts, id, p) <==>
      exists k, i :: FirstFor(parts, p, k) && FirstOf(parts[k].replicas, id, i) && parts[k].replicas[i].role == Leader
  {
    FindPartitionMeans(parts, p);
    var part := FindPartition(parts, p);
    if part.Some? { RoleOfMeans(part.value.replicas, id); }
    if IsLeader(parts, id, p) {
      var k :| FirstFor(parts, p, k) && parts[k] == part.value;
      var i :| FirstOf(parts[k].replicas, id, i) && parts[k].replicas[i].role == Leader;
    }
  }

  /** For any tables: a publish is handled here exactly when this node sees itself as leader;
      it is sent to the first listed node with the leader's ID; without partitions, or without
      a leader that is listed, it fails. */
  lemma PartitionLeaderMeans(nodes: seq<Node>, parts: seq<Partition>, self: string, hash: nat)
    ensures var r := PartitionLeader(nodes, parts, self, hash);
      && (r == NoPartitions <==> parts == [])
      && (parts != [] ==>
            var p := parts[hash % |parts|].id;
            && (r == Local <==> IsLeader(parts, self, p))
            && (r.Remote? ==>
                  && LeaderNodeID(parts, p) == Some(r.node.id)
                  && exists j :: 0 <= j < |nodes| && nodes[j] == r.node && forall k :: 0 <= k < j ==> nodes[k].id != r.node.id)
            && (r == LeaderNotFound ==>
                  && !IsLeader(parts, self, p)
                  && (LeaderNodeID(parts, p).Some? ==> !Known(nodes, LeaderNodeID(parts, p).value))))
  {
    hide IsLeader, LeaderNodeID;
    if parts != [] {
      var leader := LeaderNodeID(parts, parts[hash % |parts|].id);
      if leader.Some? { FindNodeMeans(nodes, leader.value); }
    }
  }

  lemma {:induction false} FindNodeMeans(nodes: seq<Node>, id: string)
    ensures FindNode(nodes, id).None? <==> !Known(nodes, id)
    ensures FindNode(nodes, id).Some? ==>
      exists j :: 0 <= j < |nodes| && nodes[j] == FindNode(nodes, id).value && nodes[j].id == id &&
        forall k :: 0 <= k < j ==> nodes[k].id != id
  {
    if nodes != [] {
      if nodes[0].id == id {
        assert nodes[0] == FindNode(nodes, id).value;
      } else {
        var rest := nodes[1..];
        FindNodeMeans(rest, id);
        assert forall j :: 0 < j < |nodes| ==> nodes[j] == rest[j - 1];
        if FindNode(nodes, id).Some? {
          var j :| 0 <= j < |rest| && rest[j] == FindNode(nodes, id).value && rest[j].id == id &&
            forall k :: 0 <= k < j ==> rest[k].id != id;
          assert nodes[j + 1] == FindNode(nodes, id).value;
        } else {
          assert forall j :: 0 <= j < |rest| ==> nodes[j + 1] == rest[j];
        }
      }
    }
  }

  /** The leader's ID is that of the first replica marked as leader. */
  lemma {:induction false} FirstLeaderMeans(replicas: seq<Replica>)
    ensures FirstLeader(replicas).None? <==> forall i :: 0 <= i < |replicas| ==> replicas[i].role != Leader
    ensures FirstLeader(replicas).Some? ==>
      exists i :: 0 <= i < |replicas| && replicas[i] == Replica(FirstLeader(replicas).value, Leader) &&
        forall j :: 0 <= j < i ==> replicas[j].role != Leader
  {
    if replicas != [] {
      if replicas[0].role == Leader {
        assert replicas[0] == Replica(FirstLeader(replicas).value, Leader);
      } else {
        var rest := replicas[1..];
        FirstLeaderMeans(rest);
        assert forall j :: 0 < j < |replicas| ==> replicas[j] == rest[j - 1];
        if FirstLeader(replicas).Some? {
          var i :| 0 <= i < |rest| && rest[i] == Replica(FirstLeader(replicas).value, Leader) &&
            forall j :: 0 <= j < i ==> rest[j].role != Leader;
          assert replicas[i + 1] == Replica(FirstLeader(replicas).value, Leader);
        } else {
          assert forall j :: 0 <= j < |rest| ==> replicas[j + 1] == rest[j];
        }
      }
    }
  }

  ghost predicate FirstFor(parts: seq<Partition>, p: int, k: int) {
    0 <= k < |parts| && parts[k].id == p && forall j :: 0 <= j < k ==> parts[j].id != p
  }

  ghost predicate FirstOf(replicas: seq<Replica>, id: string, i: int) {
    0 <= i < |replicas| && replicas[i].nodeID == id && forall j :: 0 <= j < i ==> replicas[j].nodeID != id
  }

  lemma {:induction false} FindPartitionMeans(parts: seq<Partition>, p: int)
    ensures FindPartition(parts, p).None? <==> forall k :: 0 <= k < |parts| ==> parts[k].id != p
    ensures FindPartition(parts, p).Some? ==> exists k :: FirstFor(parts, p, k) && parts[k] == FindPartition(parts, p).value
  {
    if parts != [] {
      if parts[0].id == p {
        assert FirstFor(parts, p, 0);
      } else {
        FindPartitionMeans(parts[1..], p);
        if FindPartition(parts, p).Some? {
          var k :| FirstFor(parts[1..], p, k) && parts[1..][k] == FindPartition(parts, p).value;
          assert FirstFor(parts, p, k + 1);
        } else {
          assert forall k :: 0 < k < |parts| ==> parts[k] == parts[1..][k - 1];
        }
      }
    }
  }

  lemma {:induction false} RoleOfMeans(replicas: seq<Replica>, id: string)
    ensures RoleOf(replicas, id).None? <==> forall i :: 0 <= i < |replicas| ==> replicas[i].nodeID != id
    ensures RoleOf(replicas, id).Some? ==>
      exists i :: FirstOf(replicas, id, i) && replicas[i].role == RoleOf(replicas, id).value
  {
    if replicas != [] {
      if replicas[0].nodeID == id {
        assert FirstOf(replicas, id, 0);
      } else {
        RoleOfMeans(replicas[1..], id);
        if RoleOf(replicas, id).Some? {
          var i :| FirstOf(replicas[1..], id, i) && replicas[1..][i].role == RoleOf(replicas, id).value;
          assert FirstOf(replicas, id, i + 1);
        } else {
          assert forall i :: 0 < i < |replicas| ==> replicas[i] == replicas[1..][i - 1];
        }
      }
    }
  }

  lemma {:induction false} FindByPosition(parts: seq<Partition>, lo: int, k: nat)
    requires k < |parts| && forall i :: 0 <= i < |parts| ==> parts[i].id == lo + i
    ensures FindPartition(parts, lo + k) == Some(parts[k])
  {
    if k > 0 { FindByPosition(parts[1..], lo + 1, k - 1); }
  }

  lemma {:induction false} RoleIsLeader(replicas: seq<Replica>, id: string)
    requires forall i :: 0 <= i < |replicas| ==> (replicas[i].role == Leader <==> i == 0)
    requires forall i, k :: 0 <= i < k < |replicas| ==> replicas[i].nodeID != replicas[k].nodeID
    ensures RoleOf(replicas, id) == Some(Leader) <==> replicas != [] && replicas[0].nodeID == id
  {
    if replicas != [] && replicas[0].nodeID != id { NoLeader(replicas[1..], id); }
  }

  lemma {:induction false} NoLeader(replicas: seq<Replica>, id: string)
    requires forall i :: 0 <= i < |replicas| ==> replicas[i].role != Leader
    ensures RoleOf(replicas, id) != Some(Leader)
  {
    if replicas != [] { NoLeader(replicas[1..], id); }
  }

  lemma {:induction false} FindNodeByID(nodes: seq<Node>, j: nat)
    requires DistinctIDs(nodes) && j < |nodes|
    ensures FindNode(nodes, nodes[j].id) == Some(nodes[j])
  {
    if j > 0 {
      assert nodes[0].id != nodes[j].id;
      FindNodeByID(nodes[1..], j - 1);
    }
  }

  /** Node number p mod N, and no other, sees itself as the leader of partition p. */
  lemma OneLeader(nodes: seq<Node>, partitions: int, factor: int, p: int, j: nat)
    requires DistinctIDs(nodes) && j < |nodes| && factor > 0 && 0 <= p < partitions
    ensures var parts := Assignment(nodes, partitions, factor);
      && (IsLeader(parts, nodes[j].id, p) <==> j == p % |nodes|)
      && LeaderNodeID(parts, p) == Some(nodes[p % |nodes|].id)
  {
    var parts, rf := Assignment(nodes, partitions, factor), Min(factor, |nodes|);
    FindByPosition(parts, 0, p);
    ReplicasDistinct(nodes, partitions, factor, p);
    var replicas := PartitionAt(nodes, rf, p).replicas;
    assert replicas[0] == ReplicaAt(nodes, p, 0);
    RoleIsLeader(replicas, nodes[j].id);
  }

  /** When all nodes share one list of distinct IDs, every publish finds the one leader: at
      the leader it is local, so the leader's own check accepts it; at any other node it is
      forwarded to the leader. Hence it is forwarded at most once. */
  lemma ForwardedAtMostOnce(nodes: seq<Node>, partitions: int, factor: int, hash: nat, j: nat)
    requires DistinctIDs(nodes) && j < |nodes| && factor > 0 && partitions > 0
    ensures var parts := Assignment(nodes, partitions, factor);
      var p := hash % partitions; var leader := nodes[p % |nodes|];
      && Route(hash, parts) == Some(p)
      && PartitionLeader(nodes, parts, nodes[j].id, hash) == (if j == p % |nodes| then Local else Remote(leader))
      && PartitionLeader(nodes, parts, leader.id, hash) == Local
      && IsLeader(parts, leader.id, p)
  {
    var p := hash % partitions;
    OneLeader(nodes, partitions, factor, p, j);
    OneLeader(nodes, partitions, factor, p, p % |nodes|);
    FindNodeByID(nodes, p % |nodes|);
    ReplicasDistinct(nodes, partitions, factor, p);
  }

  /** The partitions a node polls, in list order. */
  function LedIDs(parts: seq<Partition>, id: string): seq<int> {
    LedAmong(parts, parts, id)
  }

  function LedAmong(some: seq<Partition>, parts: seq<Partition>, id: string): seq<int> {
    if some == [] then []
    else
      var p := some[|some| - 1].id;
      LedAmong(some[..|some| - 1], parts, id) + if IsLeader(parts, id, p) then [p] else []
  }

  /** They are exactly the partitions it leads, already in increasing order, as polling
      requires. */
  lemma LedIDsIncrease(nodes: seq<Node>, partitions: int, factor: int, id: string)
    ensures var parts := Assignment(nodes, partitions, factor); var led := LedIDs(parts, id);
      && (forall a, b :: 0 <= a < b < |led| ==> led[a] < led[b])
      && (forall p :: p in led <==> 0 <= p < |parts| && IsLeader(parts, id, p))
  {
    var parts := Assignment(nodes, partitions, factor);
    LedAmongIncrease(parts, id, |parts|);
    assert parts[..|parts|] == parts;
  }

  lemma {:induction false} LedAmongIncrease(parts: seq<Partition>, id: string, count: nat)
    requires count <= |parts| && forall i :: 0 <= i < |parts| ==> parts[i].id == i
    ensures var led := LedAmong(parts[..count], parts, id);
      && (forall a, b :: 0 <= a < b < |led| ==> led[a] < led[b])
      && (forall p :: p in led <==> 0 <= p < count && IsLeader(parts, id, p))
  {
    hide IsLeader;
    if count > 0 {
      LedAmongIncrease(parts, id, count - 1);
      assert parts[..count][..count - 1] == parts[..count - 1];
      var led := LedAmong(parts[..count - 1], parts, id);
      assert forall a :: 0 <= a < |led| ==> led[a] in led;
    }
  }

  // ---------------------------------------------------------------- followers

  /** The node a lookup table built in list order holds for an ID: the last one. */
  function LastNode(nodes: seq<Node>, id: string): Option<Node> {
    if nodes == [] then None
    else if nodes[|nodes| - 1].id == id then Some(nodes[|nodes| - 1])
    else LastNode(nodes[..|nodes| - 1], id)
  }

  /** The nodes of the follower replicas, in replica order. */
  function FollowerNodes(replicas: seq<Replica>, nodes: seq<Node>): seq<Node> {
    if replicas == [] then []
    else
      var r := replicas[|replicas| - 1];
      FollowerNodes(replicas[..|replicas| - 1], nodes) +
      if r.role == Follower && LastNode(nodes, r.nodeID).Some? then [LastNode(nodes, r.nodeID).value] else []
  }

  method ForPartition(partition: Partition, nodes: seq<Node>) returns (replicators: seq<Node>)
    ensures replicators == FollowerNodes(partition.replicas, nodes)
  {
    var nodeByID: map<string, Node> := map[];
    for i := 0 to |nodes|
      invariant forall id :: id in nodeByID <==> LastNode(nodes[..i], id).Some?
      invariant forall id :: id in nodeByID ==> LastNode(nodes[..i], id) == Some(nodeByID[id])
    {
      assert nodes[..i + 1][..i] == nodes[..i];
      nodeByID := nodeByID[nodes[i].id := nodes[i]];
    }
    assert nodes[..|nodes|] == nodes;
    replicators := [];
    var replicas := partition.replicas;
    for i := 0 to |replicas|
      invariant replicators == FollowerNodes(replicas[..i], nodes)
    {
      assert replicas[..i + 1][..i] == replicas[..i];
      if replicas[i].role != Follower {
        continue;
      }
      if replicas[i].nodeID !in nodeByID {
        continue;
      }
      replicators := replicators + [nodeByID[replicas[i].nodeID]];
    }
    assert replicas[..|replicas|] == replicas;
  }

  /** For any table: the followers with a known node, in replica order, each with the last
      node of the list that has its ID. */
  lemma {:induction false} FollowerNodesMeans(replicas: seq<Replica>, nodes: seq<Node>) returns (at: seq<nat>)
    ensures Selects(at, replicas, nodes, FollowerNodes(replicas, nodes))
  {
    if replicas == [] {
      at := [];
    } else {
      hide Selects, LastNode;
      var n := |replicas| - 1;
      at := FollowerNodesMeans(replicas[..n], nodes);
      LastNodeMeans(nodes, replicas[n].nodeID);
      var f, node := FollowerNodes(replicas[..n], nodes), LastNode(nodes, replicas[n].nodeID);
      if replicas[n].role == Follower && node.Some? {
        SelectsOne(at, replicas, nodes, f, node.value);
        at := at + [n];
      } else {
        SelectsNone(at, replicas, nodes, f);
      }
    }
  }

  ghost predicate Known(nodes: seq<Node>, id: string) {
    exists j :: 0 <= j < |nodes| && nodes[j].id == id
  }

  /** `f` are the nodes of the replicas at the positions `at`, which are those of all followers
      with a known node, in order. */
  ghost predicate Selects(at: seq<nat>, replicas: seq<Replica>, nodes: seq<Node>, f: seq<Node>) {
    && |at| == |f| && (forall a, b :: 0 <= a < b < |at| ==> at[a] < at[b])
    && (forall a :: 0 <= a < |at| ==>
          at[a] < |replicas| && replicas[at[a]].role == Follower && LastWith(nodes, replicas[at[a]].nodeID, f[a]))
    && (forall i :: 0 <= i < |replicas| && replicas[i].role == Follower && Known(nodes, replicas[i].nodeID) ==> i in at)
  }

  lemma SelectsOne(at: seq<nat>, replicas: seq<Replica>, nodes: seq<Node>, f: seq<Node>, node: Node)
    requires replicas != [] && Selects(at, replicas[..|replicas| - 1], nodes, f)
    requires replicas[|replicas| - 1].role == Follower && LastWith(nodes, replicas[|replicas| - 1].nodeID, node)
    ensures Selects(at + [|replicas| - 1], replicas, nodes, f + [node])
  {
    hide LastWith, Known;
    var n := |replicas| - 1;
    var front := replicas[..n];
    assert (at + [n])[|at|] == n;
    forall i | 0 <= i < |replicas| && replicas[i].role == Follower && Known(nodes, replicas[i].nodeID)
      ensures i in at + [n]
    {
      if i < n { assert front[i] == replicas[i]; }
    }
  }

  lemma SelectsNone(at: seq<nat>, replicas: seq<Replica>, nodes: seq<Node>, f: seq<Node>)
    requires replicas != [] && Selects(at, replicas[..|replicas| - 1], nodes, f)
    requires replicas[|replicas| - 1].role != Follower || !Known(nodes, replicas[|replicas| - 1].nodeID)
    ensures Selects(at, replicas, nodes, f)
  {
    hide LastWith, Known;
    var front := replicas[..|replicas| - 1];
    assert forall i :: 0 <= i < |front| ==> front[i] == replicas[i];
  }

  /** The node is the last of the list with the ID. */
  ghost predicate LastWith(nodes: seq<Node>, id: string, node: Node) {
    exists j :: 0 <= j < |nodes| && nodes[j] == node && node.id == id &&
      forall k :: j < k < |nodes| ==> nodes[k].id != id
  }

  lemma {:induction false} LastNodeMeans(nodes: seq<Node>, id: string)
    ensures LastNode(nodes, id).Some? <==> Known(nodes, id)
    ensures LastNode(nodes, id).Some? ==> LastWith(nodes, id, LastNode(nodes, id).value)
  {
    if nodes != [] {
      var n := |nodes| - 1;
      if nodes[n].id == id {
        assert nodes[n] == LastNode(nodes, id).value;
      } else {
        var front := nodes[..n];
        LastNodeMeans(front, id);
        assert forall j :: 0 <= j < n ==> front[j] == nodes[j];
        if LastNode(nodes, id).Some? {
          var j :| 0 <= j < n && front[j] == LastNode(nodes, id).value && front[j].id == id &&
            forall k :: j < k < n ==> front[k].id != id;
          assert nodes[j] == LastNode(nodes, id).value;
        }
      }
    }
  }

  lemma {:induction false} LastNodeByID(nodes: seq<Node>, j: nat)
    requires DistinctIDs(nodes) && j < |nodes|
    ensures LastNode(nodes, nodes[j].id) == Some(nodes[j])
  {
    if j < |nodes| - 1 {
      assert nodes[|nodes| - 1].id != nodes[j].id;
      LastNodeByID(nodes[..|nodes| - 1], j);
    }
  }

  lemma {:induction false} FollowersOfAssigned(nodes: seq<Node>, factor: nat, p: int, count: nat)
    requires DistinctIDs(nodes) && nodes != [] && count <= factor
    ensures var f := FollowerNodes(PartitionAt(nodes, factor, p).replicas[..count], nodes);
      && |f| == (if count == 0 then 0 else count - 1)
      && forall i :: 0 <= i < |f| ==> f[i] == nodes[(p + i + 1) % |nodes|]
  {
    var replicas := PartitionAt(nodes, factor, p).replicas;
    if count > 0 {
      FollowersOfAssigned(nodes, factor, p, count - 1);
      assert replicas[..count][..count - 1] == replicas[..count - 1];
      assert replicas[count - 1] == ReplicaAt(nodes, p, count - 1);
      LastNodeByID(nodes, (p + count - 1) % |nodes|);
    }
  }

  /** The factory yields min(factor, nodes) - 1 replicators, the nodes that follow the leader
      around the ring. With a configuration that passes validation the coordinator's too-few-followers
      branch is taken exactly when there are no more nodes than required acknowledgements,
      so never with at least `factor` nodes. */
  lemma FactoryYieldsFollowers(nodes: seq<Node>, partitions: int, factor: int, required: int, p: int)
    requires DistinctIDs(nodes) && nodes != [] && 0 <= p < partitions
    requires factor > 0 && (factor > 1 ==> required > 0) && required < factor
    ensures |Assignment(nodes, partitions, factor)| == partitions
    ensures var f := FollowerNodes(Assignment(nodes, partitions, factor)[p].replicas, nodes);
      && |f| == (if factor <= |nodes| then factor else |nodes|) - 1
      && (forall i :: 0 <= i < |f| ==> f[i] == nodes[(p + i + 1) % |nodes|])
      && (required > |f| <==> |nodes| <= required)
      && (|nodes| >= factor ==> required <= |f|)
  {
    var rf := Min(factor, |nodes|);
    var replicas := PartitionAt(nodes, rf, p).replicas;
    FollowersOfAssigned(nodes, rf, p, rf);
    assert replicas[..rf] == replicas;
  }
}
