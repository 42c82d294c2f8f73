/** The node registry of gnr/node.c: 64 hash buckets of nodes, with statistics. */
module Registry {
  import opened Basics
  import opened Names

  const METRIC_LOCAL := 0
  const METRIC_MAX := 65535
  const TTL_DEFAULT := 30

  type Ptr = nat

  datatype Node = Node(
    name: Text, service: Text, flags: nat, metric: int,
    refcount: int, lastuse: int, ttl: int, createtime: int)

  /** The records that have not been freed, by address. */
  type Nodes = map<Ptr, Node>

  datatype Class = Local | Peered | External

  function ClassOf(metric: int): Class {
    if metric == METRIC_LOCAL then Local
    else if metric == METRIC_MAX then External
    else Peered
  }

  /** strcasecmp: the same length, and the same characters but for case. */
  predicate ServiceEq(a: Text, b: Text) {
    |a| == |b| && forall i | 0 <= i < |a| :: ToLower(a[i]) == ToLower(b[i])
  }

  /** Without a service, any service matches. */
  predicate Matches(n: Node, name: Text, service: Option<Text>) {
    NameEq(n.name, name) && (service.Some? ==> ServiceEq(n.service, service.value))
  }

  /** The same name, and the same service but for the case of letters, if one is asked for. */
  predicate Answers(n: Node, name: Text, service: Option<Text>) {
    && NameEq(n.name, name)
    && (service.Some? ==>
          && |n.service| == |service.value|
          && forall i | 0 <= i < |n.service| :: SameLetter(n.service[i], service.value[i]))
  }

  lemma MatchMeans(n: Node, name: Text, service: Option<Text>)
    ensures Matches(n, name, service) <==> Answers(n, name, service)
  {
    hide NameEq;
    if service.Some? && |n.service| == |service.value| {
      forall i | 0 <= i < |n.service|
        ensures ToLower(n.service[i]) == ToLower(service.value[i]) <==> SameLetter(n.service[i], service.value[i])
      {
      }
    }
  }

  predicate Unique(nodes: Nodes) {
    forall p <- nodes, q <- nodes | Matches(nodes[p], nodes[q].name, Some(nodes[q].service)) :: p == q
  }

  predicate LocalsNeverExpire(nodes: Nodes) {
    forall p <- nodes :: nodes[p].metric == METRIC_LOCAL ==> nodes[p].ttl == -1
  }

  predicate Expired(n: Node, now: int) {
    n.metric != METRIC_LOCAL && n.ttl != -1 && n.refcount <= 0 && now - n.lastuse >= n.ttl
  }

  ghost function Members(nodes: Nodes, c: Class): set<Ptr> {
    set p | p in nodes && ClassOf(nodes[p].metric) == c
  }

  /** The four statistics. */
  datatype Stats = Stats(total: int, local: int, peered: int, external: int)

  function Bump(s: Stats, c: Class, d: int): Stats {
    match c
    case Local => s.(local := s.local + d)
    case Peered => s.(peered := s.peered + d)
    case External => s.(external := s.external + d)
  }

  ghost predicate Exact(s: Stats, nodes: Nodes) {
    && s.total == |nodes|
    && s.local == |Members(nodes, Local)|
    && s.peered == |Members(nodes, Peered)|
    && s.external == |Members(nodes, External)|
  }

  /** Every node is in the bucket of its own name, and nowhere else. */
  ghost predicate Placed(table: seq<seq<Ptr>>, nodes: Nodes) {
    && |table| == BUCKETS
    && (forall p <- nodes :: p in table[Index(nodes[p].name)])
    && (forall i | 0 <= i < BUCKETS :: forall p <- table[i] :: p in nodes && Index(nodes[p].name) == i)
    && (forall i | 0 <= i < BUCKETS :: NoDup(table[i]))
  }

  predicate NoDup(s: seq<Ptr>) {
    forall i, j | 0 <= i < j < |s| :: s[i] != s[j]
  }

  // ---- include/gnr/gnrnode.h promises unique name/service pairs with case and spacing ignored

  /** The same name but for case and spacing, and the same service. */
  predicate Alike(n: Node, name: Text, service: Text) {
    Folded(n.name) == Folded(name) && ServiceEq(n.service, service)
  }

  predicate SpacingUnique(nodes: Nodes) {
    forall p <- nodes, q <- nodes | Alike(nodes[p], nodes[q].name, nodes[q].service) :: p == q
  }

  /** Two nodes can share such a pair only by ending in different numbers of spaces. */
  lemma UniqueUpToTrailingSpaces(nodes: Nodes, p: Ptr, q: Ptr)
    requires Unique(nodes) && p in nodes && q in nodes && p != q
    requires Alike(nodes[p], nodes[q].name, nodes[q].service)
    ensures Trailing(nodes[p].name) != Trailing(nodes[q].name)
  {
    assert Matches(nodes[p], nodes[q].name, Some(nodes[q].service)) <==>
           Trailing(nodes[p].name) == Trailing(nodes[q].name);
  }

  lemma AlikeVia(m: Node, n: Node, name: Text, service: Text)
    requires Alike(m, name, service) && Alike(n, name, service)
    ensures Alike(m, n.name, n.service)
  {
    hide Folded;
  }

  /** Adding a node that matches none keeps the promise exactly when none is like it. */
  lemma AddKeepsIff(nodes: Nodes, r: Ptr, n: Node)
    requires SpacingUnique(nodes) && r !in nodes && forall p <- nodes :: !Matches(nodes[p], n.name, Some(n.service))
    ensures SpacingUnique(nodes[r := n]) <==>
            forall p <- nodes | Alike(nodes[p], n.name, n.service) :: Trailing(nodes[p].name) == Trailing(n.name)
  {
    hide Folded, ServiceEq;
    var h := nodes[r := n];
    forall p <- nodes ensures Alike(nodes[p], n.name, n.service) ==> Trailing(nodes[p].name) != Trailing(n.name) {
      assert !Matches(nodes[p], n.name, Some(n.service));
    }
    forall p <- nodes ensures Alike(n, nodes[p].name, nodes[p].service) <==> Alike(nodes[p], n.name, n.service) {
      AlikeSymmetric(nodes[p], n);
    }
    if p :| p in nodes && Alike(nodes[p], n.name, n.service) {
      assert h[p] == nodes[p] && h[r] == n && Alike(h[p], h[r].name, h[r].service);
    }
  }

  lemma AlikeSymmetric(m: Node, n: Node)
    ensures Alike(m, n.name, n.service) <==> Alike(n, m.name, m.service)
  {
    hide Folded;
  }

  /** So does a lookup that finds a match, whose trailing spaces are those of every node like it. */
  lemma MatchKeepsIff(nodes: Nodes, r: Ptr, name: Text, service: Text)
    requires SpacingUnique(nodes) && r in nodes && Matches(nodes[r], name, Some(service))
    ensures forall p <- nodes | Alike(nodes[p], name, service) :: Trailing(nodes[p].name) == Trailing(name)
  {
    forall p <- nodes | Alike(nodes[p], name, service) ensures p == r {
      AlikeVia(nodes[p], nodes[r], name, service);
    }
  }

  // ---- Statistics follow the nodes

  lemma ExactTotal(s: Stats, nodes: Nodes)
    requires Exact(s, nodes)
    ensures s.total == s.local + s.peered + s.external
  {
    var l, p, e := Members(nodes, Local), Members(nodes, Peered), Members(nodes, External);
    assert nodes.Keys == l + p + e;
    assert |nodes.Keys| == |l + p + e| == |l| + |p| + |e|;
  }

  lemma MembersByMetric(nodes: Nodes)
    ensures Members(nodes, Local) == set p | p in nodes && nodes[p].metric == 0
    ensures Members(nodes, External) == set p | p in nodes && nodes[p].metric == 65535
    ensures Members(nodes, Peered) == set p | p in nodes && nodes[p].metric != 0 && nodes[p].metric != 65535
  {
  }

  lemma MembersAdd(nodes: Nodes, p: Ptr, n: Node, c: Class)
    requires p !in nodes
    ensures |Members(nodes[p := n], c)| == |Members(nodes, c)| + (if ClassOf(n.metric) == c then 1 else 0)
  {
    hide ClassOf;
    var m := Members(nodes[p := n], c);
    assert m == if ClassOf(n.metric) == c then Members(nodes, c) + {p} else Members(nodes, c);
  }

  lemma ExactAdd(s: Stats, nodes: Nodes, p: Ptr, n: Node)
    requires Exact(s, nodes) && p !in nodes
    ensures Exact(Bump(s.(total := s.total + 1), ClassOf(n.metric), 1), nodes[p := n])
  {
    hide Members, ClassOf;
    MembersAdd(nodes, p, n, Local);
    MembersAdd(nodes, p, n, Peered);
    MembersAdd(nodes, p, n, External);
    assert nodes[p := n].Keys == nodes.Keys + {p};
  }

  lemma ExactRemove(s: Stats, nodes: Nodes, p: Ptr)
    requires Exact(s, nodes) && p in nodes
    ensures Exact(Bump(s.(total := s.total - 1), ClassOf(nodes[p].metric), -1), nodes - {p})
  {
    hide Members, ClassOf;
    var rest := nodes - {p};
    assert nodes == rest[p := nodes[p]];
    MembersAdd(rest, p, nodes[p], Local);
    MembersAdd(rest, p, nodes[p], Peered);
    MembersAdd(rest, p, nodes[p], External);
    assert nodes.Keys == rest.Keys + {p};
  }

  lemma ExactChange(s: Stats, nodes: Nodes, p: Ptr, n: Node)
    requires Exact(s, nodes) && p in nodes
    ensures Exact(Bump(Bump(s, ClassOf(nodes[p].metric), -1), ClassOf(n.metric), 1), nodes[p := n])
  {
    ExactRemove(s, nodes, p);
    var s1 := Bump(s.(total := s.total - 1), ClassOf(nodes[p].metric), -1);
    ExactAdd(s1, nodes - {p}, p, n);
    assert (nodes - {p})[p := n] == nodes[p := n];
  }

  // ---- The invariant of the registry, kept by adding, removing and changing a node

  ghost predicate Good(table: seq<seq<Ptr>>, nodes: Nodes, s: Stats) {
    Placed(table, nodes) && Unique(nodes) && LocalsNeverExpire(nodes) && Exact(s, nodes)
  }

  lemma GoodAdd(table: seq<seq<Ptr>>, nodes: Nodes, s: Stats, p: Ptr, n: Node)
    requires Good(table, nodes, s) && p !in nodes
    requires forall q <- nodes :: !Matches(nodes[q], n.name, Some(n.service))
    requires n.metric == METRIC_LOCAL ==> n.ttl == -1
    ensures
      var i := Index(n.name);
      Good(table[i := [p] + table[i]], nodes[p := n], Bump(s.(total := s.total + 1), ClassOf(n.metric), 1))
  {
    hide Exact, NameEq, Index;
    ExactAdd(s, nodes, p, n);
    var h := nodes[p := n];
    forall a <- h, b <- h | Matches(h[a], h[b].name, Some(h[b].service)) ensures a == b {
      MatchesSymmetric(h[a], h[b]);
    }
  }

  lemma MatchesSymmetric(m: Node, n: Node)
    requires Matches(m, n.name, Some(n.service))
    ensures Matches(n, m.name, Some(m.service))
  {
  }

  /** Dropping position `k` of bucket `i`. */
  function Drop(table: seq<seq<Ptr>>, i: nat, k: nat): seq<seq<Ptr>>
    requires i < |table| && k < |table[i]|
  {
    table[i := table[i][..k] + table[i][k + 1..]]
  }

  lemma GoodRemove(table: seq<seq<Ptr>>, nodes: Nodes, s: Stats, i: nat, k: nat)
    requires Good(table, nodes, s) && i < BUCKETS && k < |table[i]|
    ensures
      var p := table[i][k];
      && p in nodes
      && Good(Drop(table, i, k), nodes - {p}, Bump(s.(total := s.total - 1), ClassOf(nodes[p].metric), -1))
  {
    hide Exact, NameEq, Index;
    var p := table[i][k];
    ExactRemove(s, nodes, p);
    assert Placed(Drop(table, i, k), nodes - {p});
  }

  lemma GoodChange(table: seq<seq<Ptr>>, nodes: Nodes, s: Stats, p: Ptr, n: Node)
    requires Good(table, nodes, s) && p in nodes
    requires n.name == nodes[p].name && n.service == nodes[p].service
    requires n.metric == METRIC_LOCAL ==> n.ttl == -1
    ensures Good(table, nodes[p := n], Bump(Bump(s, ClassOf(nodes[p].metric), -1), ClassOf(n.metric), 1))
  {
    hide Exact, NameEq, Index;
    ExactChange(s, nodes, p, n);
  }

  lemma BumpBack(s: Stats, c: Class)
    ensures Bump(Bump(s, c, -1), c, 1) == s
  {
  }

  lemma NewMatches(n: Node)
    ensures Matches(n, n.name, Some(n.service))
  {
  }

  lemma GoodMember(table: seq<seq<Ptr>>, nodes: Nodes, s: Stats, i: nat, k: nat)
    requires Good(table, nodes, s) && i < BUCKETS && k < |table[i]|
    ensures table[i][k] in nodes
  {
  }

  lemma GoodBucket(table: seq<seq<Ptr>>, nodes: Nodes, s: Stats, p: Ptr)
    requires Good(table, nodes, s) && p in nodes
    ensures p in table[Index(nodes[p].name)]
  {
  }

  lemma GoodTtl(table: seq<seq<Ptr>>, nodes: Nodes, s: Stats, p: Ptr)
    requires Good(table, nodes, s) && p in nodes
    ensures nodes[p].metric == METRIC_LOCAL ==> nodes[p].ttl == -1
  {
  }

  /** Only nodes `gone` holds for have left. */
  ghost predicate Thinned(before: Nodes, after: Nodes, gone: Node -> bool) {
    && (forall p <- after :: p in before && after[p] == before[p])
    && (forall p <- before :: p !in after ==> gone(before[p]))
  }

  /** No node of this list is one that `gone` holds for. */
  ghost predicate Spared(ps: seq<Ptr>, nodes: Nodes, gone: Node -> bool) {
    forall p <- ps :: p in nodes ==> !gone(nodes[p])
  }

  class Table {
    const hash: array<seq<Ptr>>
    var nodes: Nodes
    var stats: Stats
    var next: Ptr  // fresh addresses

    ghost predicate Valid()
      reads this, hash
    {
      hash.Length == BUCKETS && Good(hash[..], nodes, stats) && forall p <- nodes :: p < next
    }

    constructor ()
      ensures Valid() && nodes == map[] && fresh(hash)
    {
      hash := new seq<Ptr>[BUCKETS](_ => []);
      nodes, stats, next := map[], Stats(0, 0, 0, 0), 0;
    }

    /** What the statistics report in every reachable state. */
    lemma StatsReport()
      requires Valid()
      ensures stats.total == |nodes| == stats.local + stats.peered + stats.external
      ensures stats.local == |set p | p in nodes && nodes[p].metric == 0|
      ensures stats.external == |set p | p in nodes && nodes[p].metric == 65535|
      ensures stats.peered == |set p | p in nodes && nodes[p].metric != 0 && nodes[p].metric != 65535|
    {
      hide Placed, Unique, LocalsNeverExpire;
      ExactTotal(stats, nodes);
      MembersByMetric(nodes);
    }

    /** gnr_node_findbyname: looks in one bucket, and finds a match whenever any bucket has one. */
    method FindByName(name: Text, service: Option<Text>) returns (r: Option<Ptr>)
      requires Valid()
      ensures r.Some? ==> r.value in nodes && Answers(nodes[r.value], name, service)
      ensures r.None? ==> forall p <- nodes :: !Answers(nodes[p], name, service)
    {
      r := FindMatch(name, service);
      forall p <- nodes ensures Matches(nodes[p], name, service) <==> Answers(nodes[p], name, service) {
        MatchMeans(nodes[p], name, service);
      }
      hide Matches, Answers, Good;
    }

    /** The loop of gnr_node_findbyname */
    method FindMatch(name: Text, service: Option<Text>) returns (r: Option<Ptr>)
      requires Valid()
      ensures r.Some? ==> r.value in nodes && Matches(nodes[r.value], name, service)
      ensures r.None? ==> forall p <- nodes :: !Matches(nodes[p], name, service)
    {
      hide NameEq, Exact, Unique, LocalsNeverExpire;
      var key := HashKey(name);
      var bucket := hash[key as nat % BUCKETS];
      assert bucket == hash[..][Index(name)];
      for k := 0 to |bucket|
        invariant forall j | 0 <= j < k :: !Matches(nodes[bucket[j]], name, service)
      {
        var n := nodes[bucket[k]];
        var cmp := NameCmp(n.name, name);
        if cmp == 0 && (service.None? || ServiceEq(n.service, service.value)) {
          return Some(bucket[k]);
        }
      }
      forall p <- nodes ensures !Matches(nodes[p], name, service) {
        if Matches(nodes[p], name, service) {
          EqualNamesShareBucket(nodes[p].name, name);
        }
      }
      return None;
    }

    /**
     gnr_node_online, at time `now`.  It keeps names unique up to case and spacing exactly when the
     nodes that are like the new one end in as many spaces.
     */
    method Online(name: Text, service: Text, flags: nat, metric: int, now: int) returns (r: Ptr)
      requires Valid()
      modifies this, hash
      ensures Valid() && r in nodes && Answers(nodes[r], name, Some(service))
      ensures r in old(nodes) ==> nodes == old(nodes)
      ensures r !in old(nodes) ==>
        && (forall p <- old(nodes) :: !Answers(old(nodes)[p], name, Some(service)))
        && var ttl := if metric > 0 then 30 else -1;
           nodes == old(nodes)[r := Node(name, service, flags, metric, 0, now, ttl, now)]
      ensures SpacingUnique(old(nodes)) ==>
        (SpacingUnique(nodes) <==>
         forall p <- old(nodes) | Alike(old(nodes)[p], name, service) :: Trailing(old(nodes)[p].name) == Trailing(name))
    {
      hide Good, NameEq, MixAll, SpacingUnique, Alike, Answers;
      var found := FindByName(name, Some(service));
      forall p <- nodes ensures Matches(nodes[p], name, Some(service)) <==> Answers(nodes[p], name, Some(service)) {
        MatchMeans(nodes[p], name, Some(service));
      }
      if found.Some? {
        if SpacingUnique(nodes) {
          MatchKeepsIff(nodes, found.value, name, service);
        }
        return found.value;
      }
      r := next;
      var n := Node(name, service, flags, metric, 0, now, if metric > METRIC_LOCAL then TTL_DEFAULT else -1, now);
      NewMatches(n);
      MatchMeans(n, name, Some(service));
      if SpacingUnique(nodes) {
        AddKeepsIff(nodes, r, n);
      }
      GoodAdd(hash[..], nodes, stats, r, n);
      var key := HashKey(name);
      var i := key as nat % BUCKETS;
      ghost var before := hash[..];
      hash[i] := [r] + hash[i];
      assert hash[..] == before[i := [r] + before[i]];
      nodes := nodes[r := n];
      stats := Bump(stats.(total := stats.total + 1), ClassOf(metric), 1);
      next := next + 1;
    }

    /** gnr_node__hash_remove and freenode, for the node at position `k` of bucket `i` */
    method FreeAt(i: nat, k: nat)
      requires Valid() && i < BUCKETS && k < |hash[i]|
      modifies this`nodes, this`stats, hash
      ensures Valid() && old(hash[i][k]) in old(nodes)
      ensures hash[..] == Drop(old(hash[..]), i, k)
      ensures nodes == old(nodes) - {old(hash[i][k])}
    {
      hide Good;
      GoodRemove(hash[..], nodes, stats, i, k);
      var p := hash[i][k];
      ghost var before := hash[..];
      hash[i] := hash[i][..k] + hash[i][k + 1..];
      assert hash[..] == Drop(before, i, k);
      stats := Bump(stats.(total := stats.total - 1), ClassOf(nodes[p].metric), -1);
      nodes := nodes - {p};
    }

    /** gnr_node_offline */
    method Offline(p: Ptr) returns (ok: bool)
      requires Valid() && p in nodes
      modifies this`nodes, this`stats, hash
      ensures Valid() && ok && nodes == old(nodes) - {p}
    {
      hide Exact, Unique, LocalsNeverExpire, NoDup;
      var key := HashKey(nodes[p].name);
      var i := key as nat % BUCKETS;
      assert p in hash[..][Index(nodes[p].name)];
      var k := 0;
      while k < |hash[i]| && hash[i][k] != p
        invariant k <= |hash[i]| && p !in hash[i][..k]
      {
        k := k + 1;
      }
      assert p in hash[i] && hash[i] == hash[i][..k] + hash[i][k..];
      FreeAt(i, k);
      ok := true;
    }

    /** gnr_node_offline_many and gnr_node__hash_timeout: frees exactly the nodes `gone` holds for. */
    method RemoveWhere(gone: Node -> bool)
      requires Valid()
      modifies this`nodes, this`stats, hash
      ensures Valid()
      ensures nodes == map p | p in old(nodes) && !gone(old(nodes)[p]) :: old(nodes)[p]
    {
      hide Good;
      for i := 0 to BUCKETS
        invariant Valid()
        invariant Thinned(old(nodes), nodes, gone)
        invariant forall b | 0 <= b < i :: Spared(hash[b], nodes, gone)
      {
        var k := 0;
        while k < |hash[i]|
          invariant Valid() && k <= |hash[i]|
          invariant Thinned(old(nodes), nodes, gone)
          invariant forall b | 0 <= b < i :: Spared(hash[b], nodes, gone)
          invariant Spared(hash[i][..k], nodes, gone)
          decreases |hash[i]| - k
        {
          GoodMember(hash[..], nodes, stats, i, k);
          var p := hash[i][k];
          if gone(nodes[p]) {
            FreeAt(i, k);
          } else {
            k := k + 1;
          }
        }
      }
      forall p <- nodes ensures !gone(nodes[p]) {
        GoodBucket(hash[..], nodes, stats, p);
        assert p in hash[Index(nodes[p].name)];
      }
    }

    /** gnr_node__hash_timeout */
    method Timeout(now: int)
      requires Valid()
      modifies this`nodes, this`stats, hash
      ensures Valid()
      ensures forall p <- old(nodes) :: p in nodes <==>
        (var n := old(nodes)[p];
         n.metric == 0 || n.ttl == -1 || n.refcount > 0 || now - n.lastuse < n.ttl)
      ensures forall p <- nodes :: p in old(nodes) && nodes[p] == old(nodes)[p]
    {
      hide Good;
      RemoveWhere(n => Expired(n, now));
    }

    /** A change that leaves name, service and class alone. */
    method Update(p: Ptr, n: Node)
      requires Valid() && p in nodes
      requires n.name == nodes[p].name && n.service == nodes[p].service && n.metric == nodes[p].metric
      requires n.metric == METRIC_LOCAL ==> n.ttl == -1
      modifies this`nodes
      ensures Valid() && nodes == old(nodes)[p := n]
    {
      hide Good;
      GoodChange(hash[..], nodes, stats, p, n);
      BumpBack(stats, ClassOf(n.metric));
      nodes := nodes[p := n];
    }

    /** gnr_node_usehit */
    method UseHit(p: Ptr, now: int)
      requires Valid() && p in nodes
      modifies this`nodes
      ensures Valid() && nodes == old(nodes)[p := old(nodes)[p].(lastuse := now)]
    {
      hide Good;
      GoodTtl(hash[..], nodes, stats, p);
      Update(p, nodes[p].(lastuse := now));
    }

    /** gnr_node_ref (`delta` 1) and gnr_node_unref (`delta` -1) */
    method Reference(p: Ptr, delta: int)
      requires Valid() && p in nodes
      modifies this`nodes
      ensures Valid() && nodes == old(nodes)[p := old(nodes)[p].(refcount := old(nodes)[p].refcount + delta)]
    {
      hide Good;
      GoodTtl(hash[..], nodes, stats, p);
      Update(p, nodes[p].(refcount := nodes[p].refcount + delta));
    }

    /** gnr_node_setttl */
    method SetTtl(p: Ptr, ttl: int)
      requires Valid() && p in nodes
      modifies this`nodes
      ensures Valid()
      ensures nodes ==
        if old(nodes)[p].metric == 0 then old(nodes)
        else old(nodes)[p := old(nodes)[p].(ttl := if ttl == -1 then 30 else ttl)]
    {
      hide Good;
      if nodes[p].metric != METRIC_LOCAL {
        Update(p, nodes[p].(ttl := if ttl == -1 then TTL_DEFAULT else ttl));
      }
    }

    /** gnr_node_remetric, at time `now` */
    method Remetric(p: Ptr, metric: int, now: int)
      requires Valid() && p in nodes
      modifies this`nodes, this`stats
      ensures Valid()
      ensures nodes == old(nodes)[p := old(nodes)[p].(
        metric := metric, ttl := if metric == 0 then -1 else 30, lastuse := now)]
    {
      hide Good;
      var n := nodes[p].(metric := metric, ttl := if metric == METRIC_LOCAL then -1 else TTL_DEFAULT);
      GoodChange(hash[..], nodes, stats, p, n);
      stats := Bump(stats, ClassOf(nodes[p].metric), -1);
      nodes := nodes[p := n];
      stats := Bump(stats, ClassOf(metric), 1);
      UseHit(p, now);
    }
  }

  /** A registry that breaks the promise, reached by two nodes going online. */
  method SpacingNotUnique(service: Text, now: int) returns (t: Table, p: Ptr, q: Ptr)
    ensures t.Valid() && p in t.nodes && q in t.nodes && p != q
    ensures t.nodes[p].name == "mid" && t.nodes[q].name == "mid "
    ensures t.nodes[p].service == t.nodes[q].service == service
    ensures !SpacingUnique(t.nodes)
  {
    hide Good, NameEq, Folded, SpacingUnique, Trailing;
    TrailingSpaceDistinguishes();
    t := new Table();
    p := t.Online("mid", service, 0, METRIC_LOCAL, now);
    ghost var one := t.nodes;
    assert one == map[p := one[p]] && one[p].name == "mid" && one[p].service == service;
    q := t.Online("mid ", service, 0, METRIC_LOCAL, now);
    BreaksUnique(t.nodes, p, q);
  }

  lemma BreaksUnique(nodes: Nodes, p: Ptr, q: Ptr)
    requires p in nodes && q in nodes && p != q && Alike(nodes[p], nodes[q].name, nodes[q].service)
    ensures !SpacingUnique(nodes)
  {
  }
}
