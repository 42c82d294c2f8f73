/**
 The connection records of naf/conn.c as a value, and the meaning of freeing one
 connection.

 Records live in a map keyed by their address; freeing a record removes its key,
 so that every access to a record is an obligation that it has not been freed.
 */
module Cascade {
  import opened Basics

  type Ptr = nat

  /** `struct nafconn`; `open` says that its descriptor is not -1. */
  datatype Conn = Conn(open: bool, kind: bv32, endpoint: Option<Ptr>, parent: Option<Ptr>)

  type Conns = map<Ptr, Conn>

  const LOCAL: bv32 := 0x0004_0000
  const CLIENT: bv32 := 0x0010_0000
  const LISTENER: bv32 := 0x0040_0000
  const SERVER: bv32 := 0x0020_0000
  const CONNECTING: bv32 := 0x0100_0000
  const RAWWAITING: bv32 := 0x0200_0000
  const PROROGUEDEATH: bv32 := 0x0800_0000

  predicate Exempt(kind: bv32) {
    kind & PROROGUEDEATH != 0 || kind & LOCAL != 0
  }

  ghost function Opens(g: Conns): set<Ptr> {
    set p | p in g && g[p].open
  }

  predicate Into(link: Option<Ptr>, s: set<Ptr>) {
    link.Some? && link.value in s
  }

  predicate PointsInto(c: Conn, s: set<Ptr>) {
    Into(c.endpoint, s) || Into(c.parent, s)
  }

  /** `p` is open, not exempt, and its endpoint or parent is in `s`. */
  predicate Doomed(g: Conns, p: Ptr, s: set<Ptr>) {
    p in g && g[p].open && !Exempt(g[p].kind) && PointsInto(g[p], s)
  }

  function Dependents(g: Conns, s: set<Ptr>): set<Ptr> {
    set p | p in g && Doomed(g, p, s)
  }

  /** Nothing outside `s` has to die because of a member of `s`. */
  predicate Closed(g: Conns, s: set<Ptr>) {
    Dependents(g, s) <= s
  }

  /** Everything that dies when the members of `s` die. */
  function Victims(g: Conns, s: set<Ptr>): (v: set<Ptr>)
    ensures s <= v <= s + g.Keys
    ensures Closed(g, v)
    decreases g.Keys - s
  {
    var d := Dependents(g, s);
    if d <= s then s else
    assert g.Keys - (s + d) < g.Keys - s by {
      var p :| p in d && p !in s;
      assert p in g.Keys - s && p !in g.Keys - (s + d);
    }
    Victims(g, s + d)
  }

  function CutLink(link: Option<Ptr>, s: set<Ptr>): Option<Ptr> {
    if Into(link, s) then None else link
  }

  function Cut(c: Conn, s: set<Ptr>): Conn {
    c.(endpoint := CutLink(c.endpoint, s), parent := CutLink(c.parent, s))
  }

  /** The records without `s`, every link of an open record into `s` cleared. */
  function Prune(g: Conns, s: set<Ptr>): Conns {
    map p | p in g.Keys - s :: if g[p].open then Cut(g[p], s) else g[p]
  }

  // ---- Victims is the least closed set

  lemma {:induction false} VictimsLeast(g: Conns, s: set<Ptr>, t: set<Ptr>)
    requires s <= t && Closed(g, t)
    ensures Victims(g, s) <= t
    decreases g.Keys - s
  {
    var d := Dependents(g, s);
    if !(d <= s) {
      forall p | p in d ensures p in t {
        assert p in Dependents(g, t);
      }
      var p :| p in d && p !in s;
      assert p in g.Keys - s && p !in g.Keys - (s + d);
      VictimsLeast(g, s + d, t);
    }
  }

  lemma VictimsStep(g: Conns, s: set<Ptr>, p: Ptr)
    requires Doomed(g, p, Victims(g, s))
    ensures p in Victims(g, s)
  {
    assert p in Dependents(g, Victims(g, s));
  }

  /** Each member of `path` after the first dies because of the one before it. */
  predicate Chain(g: Conns, path: seq<Ptr>) {
    forall i | 0 < i < |path| :: Doomed(g, path[i], {path[i - 1]})
  }

  predicate ChainTo(g: Conns, d: Ptr, p: Ptr, path: seq<Ptr>) {
    |path| > 0 && path[0] == d && path[|path| - 1] == p && Chain(g, path)
  }

  lemma {:induction false} ChainKills(g: Conns, d: Ptr, p: Ptr, path: seq<Ptr>)
    requires ChainTo(g, d, p, path)
    ensures p in Victims(g, {d})
    decreases |path|
  {
    if |path| > 1 {
      var q := path[|path| - 2];
      assert ChainTo(g, d, q, path[..|path| - 1]);
      ChainKills(g, d, q, path[..|path| - 1]);
      VictimsStep(g, {d}, p);
    }
  }

  /** A connection dies with `d` exactly when a chain of dependents leads from `d` to it. */
  lemma VictimsAreChained(g: Conns, d: Ptr, p: Ptr)
    ensures p in Victims(g, {d}) <==> exists path :: ChainTo(g, d, p, path)
  {
    forall path | ChainTo(g, d, p, path) ensures p in Victims(g, {d}) {
      ChainKills(g, d, p, path);
    }
    ghost var t := set x | x in g.Keys + {d} && exists path :: ChainTo(g, d, x, path);
    assert ChainTo(g, d, d, [d]);
    forall x | x in Dependents(g, t) ensures x in t {
      var q :| q in t && Doomed(g, x, {q});
      var path :| ChainTo(g, d, q, path);
      assert ChainTo(g, d, x, path + [x]);
    }
    VictimsLeast(g, {d}, t);
  }

  // ---- The list of descriptors

  /** A descriptor on the list that is not closed leads to an open record, and every open record has one. */
  predicate Listed(g: Conns, fds: seq<Ptr>, closed: set<Ptr>) {
    && (forall p <- g :: g[p].open ==> p in fds && p !in closed)
    && (forall p <- fds :: p !in closed ==> p in g && g[p].open)
  }

  lemma ListedClose(g: Conns, fds: seq<Ptr>, closed: set<Ptr>, p: Ptr)
    requires Listed(g, fds, closed) && p in g
    ensures Listed(g[p := g[p].(open := false)], fds, closed + {p})
  {
  }

  lemma ListedUnlink(g: Conns, fds: seq<Ptr>, closed: set<Ptr>, p: Ptr, side: Side)
    requires Listed(g, fds, closed) && p in g
    ensures Listed(g[p := Unlink(g[p], side)], fds, closed)
  {
  }

  lemma ListedRemove(g: Conns, fds: seq<Ptr>, closed: set<Ptr>, p: Ptr)
    requires Listed(g, fds, closed) && p in closed
    ensures Listed(g - {p}, fds, closed)
  {
  }

  lemma ListedEntry(g: Conns, fds: seq<Ptr>, closed: set<Ptr>, p: Ptr)
    requires Listed(g, fds, closed) && p in fds
    ensures p !in closed <==> p in g && g[p].open
  {
  }

  lemma ListedAll(g: Conns, fds: seq<Ptr>, closed: set<Ptr>, dead: Ptr)
    requires Listed(g, fds, closed) && Cleared(g, fds, dead, Parent) && Cleared(g, fds, dead, Endpoint)
    ensures forall p <- g | g[p].open :: !PointsInto(g[p], {dead})
  {
  }

  lemma ListedAdd(g: Conns, fds: seq<Ptr>, closed: set<Ptr>, p: Ptr, kind: bv32)
    requires Listed(g, fds, closed) && p !in g && p !in closed
    ensures Listed(g[p := Conn(false, 0, None, None)], fds, closed)
    ensures Listed(g[p := Conn(true, kind, None, None)], fds + [p], closed)
  {
    assert p !in fds;
  }

  // ---- States between calls: every record is open and no link dangles

  predicate Linked(g: Conns, link: Option<Ptr>) {
    link.Some? ==> link.value in g
  }

  predicate Settled(g: Conns) {
    forall p <- g :: g[p].open && Linked(g, g[p].endpoint) && Linked(g, g[p].parent)
  }

  lemma FreeKeepsSettled(g: Conns, dead: Ptr)
    requires Settled(g) && dead in g
    ensures Settled(Prune(g, Victims(g, {dead})))
    ensures |g| == |Prune(g, Victims(g, {dead}))| + |Victims(g, {dead})|
  {
    hide Victims;
    var v := Victims(g, {dead});
    var h := Prune(g, v);
    assert forall p <- h :: h[p] == Cut(g[p], v);
    assert g.Keys == h.Keys + v;
  }

  lemma UnlinkKeepsSettled(g: Conns, p: Ptr)
    requires Settled(g) && p in g
    ensures Settled(g[p := g[p].(endpoint := None)]) && |g[p := g[p].(endpoint := None)]| == |g|
  {
    assert g[p := g[p].(endpoint := None)].Keys == g.Keys;
  }

  /** The type of the server connection opened for a client connection. */
  function PeerKind(kind: bv32, inprogress: bool): bv32 {
    (kind ^ CLIENT) | SERVER | (if inprogress then CONNECTING else 0)
  }

  predicate Waiting(kind: bv32) {
    kind & RAWWAITING != 0
  }

  function Recognized(kind: bv32): bv32 {
    kind & !RAWWAITING
  }

  /** `local` and `peer` loop back to each other, both out of the RAWWAITING state. */
  function Loop(g: Conns, local: Ptr, peer: Ptr): Conns
    requires local in g && peer in g && local != peer
  {
    var (l, p) := (g[local].(endpoint := Some(peer)), g[peer].(endpoint := Some(local)));
    if Waiting(l.kind) then
      g[local := l.(kind := Recognized(l.kind))][peer := p.(kind := Recognized(p.kind))]
    else
      g[local := l][peer := p]
  }

  lemma LoopKeepsSettled(g: Conns, local: Ptr, peer: Ptr)
    requires Settled(g) && local in g && peer in g && local != peer
    ensures Settled(Loop(g, local, peer)) && Loop(g, local, peer).Keys == g.Keys
    ensures |Loop(g, local, peer)| == |g|
  {
    hide Waiting, Recognized;
    var h := Loop(g, local, peer);
    assert h.Keys == g.Keys;
    forall p <- h ensures h[p].open && Linked(h, h[p].endpoint) && Linked(h, h[p].parent) {
      assert g[p].open && Linked(g, g[p].endpoint) && Linked(g, g[p].parent);
    }
    assert |h.Keys| == |g.Keys|;
  }

  lemma AddCounts(g: Conns, p: Ptr, c: Conn)
    requires p !in g
    ensures |g[p := c]| == |g| + 1
  {
    assert g[p := c].Keys == g.Keys + {p};
  }

  lemma AddKeepsSettled(g: Conns, p: Ptr, kind: bv32)
    requires Settled(g) && p !in g
    ensures Settled(g[p := Conn(true, kind, None, None)])
  {
  }

  /** A record nobody links to dies alone, and leaves the others as they were. */
  lemma FreshDiesAlone(g: Conns, p: Ptr)
    requires Settled(g) && p !in g
    ensures
      var h := g[p := Conn(false, 0, None, None)];
      Victims(h, {p}) == {p} && Prune(h, {p}) == g
  {
    var h := g[p := Conn(false, 0, None, None)];
    VictimsLeast(h, {p}, {p});
  }

  // ---- What the traversals of remchildren and remendpoint maintain

  /** A survivor's link is either as it was or cleared because it led to `s`. */
  predicate SameOrCut(before: Option<Ptr>, after: Option<Ptr>, s: set<Ptr>) {
    after == before || (after.None? && Into(before, s))
  }

  predicate Kept(before: Conn, after: Conn, dead: Ptr, k: set<Ptr>) {
    && after.open == before.open
    && after.kind == before.kind
    && (!after.open || !Exempt(after.kind) ==> after == before)
    && SameOrCut(before.endpoint, after.endpoint, k + {dead})
    && SameOrCut(before.parent, after.parent, k + {dead})
    && (after.open ==> !PointsInto(after, k))
  }

  /**
   From `g0`, where `dead` is closed but not yet freed, the traversal has so far
   killed `k` and reached `g1`: the kills are justified, open survivors that are
   not exempt are untouched, exempt ones only lost links, and no open record
   points at a killed one.
   */
  predicate Progress(g0: Conns, g1: Conns, dead: Ptr, k: set<Ptr>) {
    && dead in g1
    && !g1[dead].open
    && k <= g0.Keys
    && g1.Keys == g0.Keys - k
    && k <= Victims(g0, {dead})
    && forall p <- g1 | p != dead :: Kept(g0[p], g1[p], dead, k)
  }

  /** The two kinds of link, and the two traversals. */
  datatype Side = Parent | Endpoint

  function Link(c: Conn, side: Side): Option<Ptr> {
    if side.Parent? then c.parent else c.endpoint
  }

  function Unlink(c: Conn, side: Side): Conn {
    if side.Parent? then c.(parent := None) else c.(endpoint := None)
  }

  /** None of the listed records that are open has its `side` link on `dead`. */
  predicate Cleared(g: Conns, ps: seq<Ptr>, dead: Ptr, side: Side) {
    forall p <- ps :: p in g && g[p].open ==> Link(g[p], side) != Some(dead)
  }

  lemma ClearedNext(g: Conns, ps: seq<Ptr>, i: nat, dead: Ptr, side: Side)
    requires i < |ps| && Cleared(g, ps[..i], dead, side)
    requires ps[i] in g && g[ps[i]].open ==> Link(g[ps[i]], side) != Some(dead)
    ensures Cleared(g, ps[..i + 1], dead, side)
  {
    assert ps[..i + 1] == ps[..i] + [ps[i]];
  }

  lemma ClearedStays(g: Conns, ps: seq<Ptr>, dead: Ptr, side: Side, p: Ptr, via: Side, v: set<Ptr>)
    requires Cleared(g, ps, dead, side) && p in g
    ensures Cleared(g[p := Unlink(g[p], via)], ps, dead, side)
    ensures Cleared(Prune(g[p := Unlink(g[p], via)], v), ps, dead, side)
  {
  }

  lemma ProgressStart(g: Conns, dead: Ptr)
    requires dead in g && !g[dead].open
    ensures Progress(g, g, dead, {})
  {
  }

  /** `dead` clears its own link first. */
  lemma ProgressSelf(g0: Conns, g1: Conns, dead: Ptr, k: set<Ptr>, side: Side)
    requires Progress(g0, g1, dead, k)
    ensures dead in g1 && !g1[dead].open
    ensures Progress(g0, g1[dead := Unlink(g1[dead], side)], dead, k)
  {
    hide Victims;
  }

  /** `p` lost its link to `dead`; being exempt, it lives on. */
  lemma ProgressSpare(g0: Conns, g1: Conns, dead: Ptr, k: set<Ptr>, p: Ptr, side: Side)
    requires Progress(g0, g1, dead, k)
    requires p in g1 && g1[p].open && Exempt(g1[p].kind) && Link(g1[p], side) == Some(dead)
    ensures Progress(g0, g1[p := Unlink(g1[p], side)], dead, k)
  {
    hide Victims, Exempt;
  }

  /** `p` lost its link to `dead` and is freed in turn: its victims are victims of `dead`. */
  lemma KillJustified(g0: Conns, g1: Conns, dead: Ptr, k: set<Ptr>, p: Ptr, side: Side)
    requires Progress(g0, g1, dead, k)
    requires p in g1 && g1[p].open && !Exempt(g1[p].kind) && Link(g1[p], side) == Some(dead)
    ensures Victims(g1[p := Unlink(g1[p], side)], {p}) <= Victims(g0, {dead})
  {
    hide Victims, Exempt;
    var h := g1[p := Unlink(g1[p], side)];
    var all := Victims(g0, {dead});
    assert Kept(g0[p], g1[p], dead, k);
    VictimsStep(g0, {dead}, p);
    forall x | x in Dependents(h, all) ensures x in all {
      assert Kept(g0[x], g1[x], dead, k);
      VictimsStep(g0, {dead}, x);
    }
    VictimsLeast(h, {p}, all);
  }

  lemma KeptLonger(before: Conn, after: Conn, dead: Ptr, k: set<Ptr>, v: set<Ptr>)
    requires Kept(before, after, dead, k)
    requires after.open ==> Exempt(after.kind) || !PointsInto(after, v)
    ensures Kept(before, if after.open then Cut(after, v) else after, dead, k + v)
  {
    hide Exempt;
  }

  lemma OpenVictims(g: Conns, p: Ptr)
    requires p in g && g[p].open
    ensures forall x <- Victims(g, {p}) :: x in g && g[x].open
  {
    VictimsLeast(g, {p}, set x | x in g && g[x].open);
  }

  lemma ProgressKill(g0: Conns, g1: Conns, dead: Ptr, k: set<Ptr>, p: Ptr, side: Side)
    requires Progress(g0, g1, dead, k)
    requires p in g1 && g1[p].open && !Exempt(g1[p].kind) && Link(g1[p], side) == Some(dead)
    ensures
      var h := g1[p := Unlink(g1[p], side)];
      var v := Victims(h, {p});
      Progress(g0, Prune(h, v), dead, k + v)
  {
    hide Victims, Exempt;
    var h := g1[p := Unlink(g1[p], side)];
    var v := Victims(h, {p});
    KillJustified(g0, g1, dead, k, p, side);
    OpenVictims(h, p);
    forall x <- Prune(h, v) | x != dead ensures Kept(g0[x], Prune(h, v)[x], dead, k + v) {
      assert x != p && h[x] == g1[x];
      if h[x].open && !Exempt(h[x].kind) && PointsInto(h[x], v) {
        VictimsStep(h, {p}, x);
      }
      KeptLonger(g0[x], g1[x], dead, k, v);
    }
  }

  lemma CloseOpens(g: Conns, p: Ptr)
    requires p in g
    ensures Opens(g[p := g[p].(open := false)]) == Opens(g) - {p}
    ensures g[p := g[p].(open := false)].Keys == g.Keys && |g[p := g[p].(open := false)]| == |g|
  {
    assert |g[p := g[p].(open := false)].Keys| == |g.Keys|;
  }

  lemma PruneOpens(g: Conns, v: set<Ptr>)
    ensures Opens(Prune(g, v)) == Opens(g) - v
  {
  }

  lemma ProgressRemoveDead(g0: Conns, g1: Conns, dead: Ptr, k: set<Ptr>)
    requires Progress(g0, g1, dead, k)
    ensures |g1 - {dead}| == |g1| - 1
  {
    assert g1.Keys == (g1 - {dead}).Keys + {dead};
  }

  /** When no link of an open record leads to `dead`, the cascade is complete. */
  lemma ProgressDone(g: Conns, g1: Conns, dead: Ptr, k: set<Ptr>)
    requires dead in g
    requires Progress(g[dead := g[dead].(open := false)], g1, dead, k)
    requires forall p <- g1 | g1[p].open :: !PointsInto(g1[p], {dead})
    ensures k + {dead} == Victims(g, {dead})
    ensures g1 - {dead} == Prune(g, k + {dead})
  {
    hide Victims, Exempt;
    var g0 := g[dead := g[dead].(open := false)];
    var all := Victims(g, {dead});
    forall x | x in Dependents(g, k + {dead}) ensures x in k + {dead} {
      if x in g1 && x != dead {
        assert Kept(g0[x], g1[x], dead, k);
      }
    }
    VictimsLeast(g, {dead}, k + {dead});
    forall x | x in Dependents(g0, all) ensures x in all {
      VictimsStep(g, {dead}, x);
    }
    VictimsLeast(g0, {dead}, all);
    forall x <- g1 | x != dead ensures g1[x] == Prune(g, k + {dead})[x] {
      assert Kept(g0[x], g1[x], dead, k);
    }
  }

  // ---- The same in the bits of the type, without reference to who is exempt or a victim

  /** Neither locally serviced (bit 18) nor told to outlive its endpoint (bit 27). */
  lemma ExemptBits(kind: bv32)
    ensures Exempt(kind) <==> kind & 0x0804_0000 != 0
  {
  }

  /**
   From `g` to `h`, when `dead` is freed: whatever else is gone had neither bit; an open record with
   neither bit whose endpoint or parent is gone is gone; and of what is left, the open records lost
   exactly their links to what is gone.
   */
  ghost predicate Freed(g: Conns, h: Conns, dead: Ptr) {
    && h.Keys <= g.Keys && dead !in h
    && (forall p <- g | p !in h && p != dead :: g[p].open && g[p].kind & 0x0804_0000 == 0)
    && (forall p <- g | g[p].open && g[p].kind & 0x0804_0000 == 0 ::
          (Gone(g, h, g[p].endpoint) || Gone(g, h, g[p].parent)) ==> p !in h)
    && (forall p <- h | g[p].open ::
          && h[p].open && h[p].kind == g[p].kind
          && h[p].endpoint == (if Gone(g, h, g[p].endpoint) then None else g[p].endpoint)
          && h[p].parent == (if Gone(g, h, g[p].parent) then None else g[p].parent))
  }

  ghost predicate Gone(g: Conns, h: Conns, link: Option<Ptr>) {
    link.Some? && link.value in g && link.value !in h
  }

  lemma FreedBits(g: Conns, dead: Ptr)
    requires dead in g
    ensures Freed(g, Prune(g, Victims(g, {dead})), dead)
  {
    hide Victims, Exempt;
    var v := Victims(g, {dead});
    var h := Prune(g, v);
    VictimsOpen(g, dead);
    forall p <- g ensures Exempt(g[p].kind) <==> g[p].kind & 0x0804_0000 != 0 {
      ExemptBits(g[p].kind);
    }
    forall p <- g | Doomed(g, p, v) ensures p !in h {
      VictimsStep(g, {dead}, p);
    }
    assert forall p <- g :: p !in h <==> p in v;
  }

  lemma VictimsOpen(g: Conns, dead: Ptr)
    requires dead in g
    ensures forall p <- Victims(g, {dead}) :: p in g && (p == dead || (g[p].open && !Exempt(g[p].kind)))
  {
    VictimsLeast(g, {dead}, {dead} + set p | p in g && g[p].open && !Exempt(g[p].kind));
  }
}
