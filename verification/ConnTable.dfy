/** The global connection list of naf/conn.c and the operations on it. */
module ConnTable {
  import opened Basics
  import opened Cascade

  class Table {
    var fdlist: seq<Ptr>   // the descriptors, by connection; they stay listed after they are closed
    var closed: set<Ptr>   // the descriptors that are -1
    var conns: Conns       // the records that have not been freed
    var openconns: int
    var nextcid: nat

    /** Holds between calls. */
    ghost predicate Valid()
      reads this
    {
      && Listed(conns, fdlist, closed)
      && Settled(conns)
      && openconns == |conns|
      && (forall p <- conns :: p < nextcid)
      && (forall p <- closed :: p < nextcid)
    }

    constructor ()
      ensures Valid() && conns == map[]
    {
      fdlist, closed, conns, openconns, nextcid := [], {}, map[], 0, 0;
    }

    /**
     naf_conn_free.  Every access to a record, here and below, is an access to one that
     has not been freed; the recursion terminates because `dead` is closed first.
     */
    method FreeConn(dead: Ptr)
      requires Listed(conns, fdlist, closed) && dead in conns
      modifies this`conns, this`closed, this`openconns
      ensures Listed(conns, fdlist, closed)
      ensures old(closed) <= closed <= old(closed + conns.Keys)
      ensures conns == Prune(old(conns), Victims(old(conns), {dead}))
      ensures Freed(old(conns), conns, dead)
      ensures openconns - |conns| == old(openconns - |conns|)
      decreases Opens(conns) + {dead}, 0
    {
      hide Progress, Victims, Prune, Listed, Cleared, Opens, Freed;
      FreedBits(conns, dead);
      openconns := openconns - 1;
      ListedClose(conns, fdlist, closed, dead);
      CloseOpens(conns, dead);
      conns, closed := conns[dead := conns[dead].(open := false)], closed + {dead};
      ghost var g0 := conns;
      ProgressStart(g0, dead);
      ghost var k := RemLinks(dead, Parent, g0, {});
      k := RemLinks(dead, Endpoint, g0, k);
      ListedAll(conns, fdlist, closed, dead);
      ProgressDone(old(conns), conns, dead, k);
      ProgressRemoveDead(g0, conns, dead, k);
      ListedRemove(conns, fdlist, closed, dead);
      conns := conns - {dead};
    }

    /** remchildren and remendpoint: the same traversal over either kind of link. */
    method RemLinks(dead: Ptr, side: Side, ghost g0: Conns, ghost k0: set<Ptr>) returns (ghost k: set<Ptr>)
      requires Listed(conns, fdlist, closed) && Progress(g0, conns, dead, k0)
      requires side.Endpoint? ==> Cleared(conns, fdlist, dead, Parent)
      modifies this`conns, this`closed, this`openconns
      ensures Listed(conns, fdlist, closed) && Progress(g0, conns, dead, k)
      ensures old(closed) <= closed <= old(closed + conns.Keys) && conns.Keys <= old(conns.Keys)
      ensures Opens(conns) <= old(Opens(conns))
      ensures Cleared(conns, fdlist, dead, Parent)
      ensures side.Endpoint? ==> Cleared(conns, fdlist, dead, Endpoint)
      ensures openconns - |conns| == old(openconns - |conns|)
      decreases Opens(conns), 2
    {
      hide Progress, Victims, Prune, Listed, Freed;
      k := k0;
      ProgressSelf(g0, conns, dead, k, side);
      ListedUnlink(conns, fdlist, closed, dead, side);
      conns := conns[dead := Unlink(conns[dead], side)];
      for i := 0 to |fdlist|
        invariant Listed(conns, fdlist, closed) && Progress(g0, conns, dead, k)
        invariant old(closed) <= closed <= old(closed + conns.Keys) && conns.Keys <= old(conns.Keys)
        invariant Opens(conns) <= old(Opens(conns))
        invariant Cleared(conns, fdlist[..i], dead, side)
        invariant side.Endpoint? ==> Cleared(conns, fdlist, dead, Parent)
        invariant openconns - |conns| == old(openconns - |conns|)
      {
        var p := fdlist[i];
        ListedEntry(conns, fdlist, closed, p);
        if p !in closed && Link(conns[p], side) == Some(dead) {
          k := Sever(p, dead, side, fdlist[..i], g0, k);
        }
        ClearedNext(conns, fdlist, i, dead, side);
      }
      assert fdlist[..|fdlist|] == fdlist;
    }

    /** The body of the traversal: an open record `p` whose link leads to `dead`. */
    method Sever(p: Ptr, dead: Ptr, side: Side, ghost done: seq<Ptr>, ghost g0: Conns, ghost k0: set<Ptr>)
      returns (ghost k: set<Ptr>)
      requires Listed(conns, fdlist, closed) && Progress(g0, conns, dead, k0)
      requires p in conns && conns[p].open && Link(conns[p], side) == Some(dead)
      requires Cleared(conns, done, dead, side)
      requires side.Endpoint? ==> Cleared(conns, fdlist, dead, Parent)
      modifies this`conns, this`closed, this`openconns
      ensures Listed(conns, fdlist, closed) && Progress(g0, conns, dead, k)
      ensures old(closed) <= closed <= old(closed + conns.Keys) && conns.Keys <= old(conns.Keys)
      ensures Opens(conns) <= old(Opens(conns))
      ensures Cleared(conns, done, dead, side) && (p in conns && conns[p].open ==> Link(conns[p], side) == None)
      ensures side.Endpoint? ==> Cleared(conns, fdlist, dead, Parent)
      ensures openconns - |conns| == old(openconns - |conns|)
      decreases Opens(conns), 1
    {
      hide Progress, Victims, Listed, Cleared, Freed;
      k := k0;
      ghost var g1 := conns;
      ListedUnlink(conns, fdlist, closed, p, side);
      conns := conns[p := Unlink(conns[p], side)];
      ghost var v := Victims(conns, {p});
      ClearedStays(g1, done, dead, side, p, side, v);
      if side.Endpoint? {
        ClearedStays(g1, fdlist, dead, Parent, p, side, v);
      }
      if !Exempt(conns[p].kind) {
        ProgressKill(g0, g1, dead, k, p, side);
        k := k + v;
        PruneOpens(conns, v);
        assert Opens(conns) + {p} == old(Opens(conns));
        FreeConn(p);
      } else {
        ProgressSpare(g0, g1, dead, k, p, side);
      }
    }

    /** connhandler_eof: a live connection goes away, and all that depends on it. */
    method HandleEof(dead: Ptr) returns (stop: bool)
      requires Valid() && dead in conns
      modifies this`conns, this`closed, this`openconns
      ensures Valid()
      ensures stop == (old(conns)[dead].kind & 0x0040_0000 != 0)
      ensures Freed(old(conns), conns, dead)
      ensures forall p <- old(conns) :: p in conns <==> p !in Victims(old(conns), {dead})
      ensures conns == Prune(old(conns), Victims(old(conns), {dead}))
      ensures openconns == old(openconns) - |Victims(old(conns), {dead})|
    {
      hide Victims, Freed;
      stop := conns[dead].kind & LISTENER != 0;
      FreeKeepsSettled(conns, dead);
      FreeConn(dead);
    }

    /** naf_conn_addconn; `added` is the outcome of nbio_addfd. */
    method AddConn(kind: bv32, added: bool) returns (r: Option<Ptr>)
      requires Valid()
      modifies this
      ensures Valid() && nextcid == old(nextcid) + 1
      ensures r == if added then Some(old(nextcid)) else None
      ensures conns == if added then old(conns)[old(nextcid) := Conn(true, kind, None, None)] else old(conns)
    {
      hide Victims, Prune, Settled, Listed, Freed;
      var p := nextcid;
      AddKeepsSettled(conns, p, kind);
      AddCounts(conns, p, Conn(false, 0, None, None));
      AddCounts(conns, p, Conn(true, kind, None, None));
      ListedAdd(conns, fdlist, closed, p, kind);
      nextcid, openconns := nextcid + 1, openconns + 1;
      conns := conns[p := Conn(false, 0, None, None)];
      if !added {
        FreshDiesAlone(old(conns), p);
        FreeConn(p);
        r := None;
      } else {
        fdlist := fdlist + [p];
        conns := conns[p := Conn(true, kind, None, None)];
        assert conns == old(conns)[p := Conn(true, kind, None, None)];
        r := Some(p);
      }
    }

    /** A module makes `parent` the parent of `child`; the field is open to all of them. */
    method Adopt(child: Ptr, parent: Ptr)
      requires Valid() && child in conns && parent in conns
      modifies this`conns
      ensures Valid() && conns == old(conns)[child := old(conns)[child].(parent := Some(parent))]
    {
      conns := conns[child := conns[child].(parent := Some(parent))];
      assert conns.Keys == old(conns.Keys);
    }

    /** A module's takeconn gives a new connection its type. */
    method Retype(p: Ptr, kind: bv32)
      requires Valid() && p in conns
      modifies this`conns
      ensures Valid() && conns == old(conns)[p := old(conns)[p].(kind := kind)]
    {
      conns := conns[p := conns[p].(kind := kind)];
      assert conns.Keys == old(conns.Keys);
    }

    /** The end of naf_conn_startconnect: the two connections become each other's endpoint. */
    method Join(local: Ptr, peer: Ptr)
      requires Valid() && local in conns && peer in conns && local != peer
      modifies this`conns
      ensures Valid() && conns == Loop(old(conns), local, peer)
      ensures Joined(old(conns), conns, local, peer)
    {
      hide Settled, Waiting, Recognized, Joined;
      LoopKeepsSettled(conns, local, peer);
      LoopJoins(conns, local, peer);
      var l := conns[local].(endpoint := Some(peer));
      var p := conns[peer];
      if Waiting(l.kind) {
        l := l.(kind := Recognized(l.kind));
        p := p.(kind := Recognized(p.kind));
      }
      p := p.(endpoint := Some(local));
      conns := conns[local := l][peer := p];
    }

    /**
     naf_conn_startconnect once the name is resolved; `connected` is the outcome of
     the socket calls, `inprogress` whether the connect is still under way, `added`
     the outcome of nbio_addfd, and `take` what the owner's takeconn makes of the type.
     */
    method StartConnect(local: Ptr, connected: bool, inprogress: bool, added: bool, take: bv32 -> bv32)
      returns (ok: bool)
      requires Valid() && local in conns
      modifies this
      ensures Valid()
      ensures ok == (connected && added)
      ensures conns ==
        if !connected then old(conns)
        else if !added then old(conns)[local := old(conns)[local].(endpoint := None)]
        else
          var kind := take(PeerKind(old(conns)[local].kind, inprogress));
          Loop(old(conns)[old(nextcid) := Conn(true, kind, None, None)], local, old(nextcid))
      ensures connected && added ==> Started(old(conns), conns, local, old(nextcid), inprogress, take)
    {
      hide Settled, PeerKind, Loop, Started;
      StartedBits(conns, local, nextcid, inprogress, take);
      if !connected {
        return false;
      }
      UnlinkKeepsSettled(conns, local);
      var peer := AddConn(PeerKind(conns[local].kind, inprogress), added);
      if peer == None {
        conns := conns[local := conns[local].(endpoint := None)];
        return false;
      }
      var kind := take(conns[peer.value].kind);
      Retype(peer.value, kind);
      assert conns == old(conns)[peer.value := Conn(true, kind, None, None)];
      Join(local, peer.value);
      return true;
    }

    /**
     A connection is opened for `local`, and `local` hangs up: the new one goes with it exactly when
     `local` was neither locally serviced nor told to let its endpoint live.
     */
    method OpenThenHangUp(local: Ptr, inprogress: bool) returns (peer: Ptr)
      requires Valid() && local in conns
      modifies this
      ensures Valid() && peer == old(nextcid) && local !in conns
      ensures peer !in conns <==> old(conns)[local].kind & 0x0804_0000 == 0
    {
      peer := nextcid;
      ghost var k := conns[local].kind;
      var ok := StartConnect(local, true, inprogress, true, kind => kind);
      ghost var g := conns;
      PeerBits(k, inprogress);
      var stop := HandleEof(local);
      assert g[peer].endpoint == Some(local) && g[peer].kind & 0x0804_0000 == k & 0x0804_0000;
    }
  }

  /** The two end at each other, out of the RAWWAITING state (bit 25) if `local` was in it, and nothing else changes. */
  ghost predicate Joined(g: Conns, h: Conns, local: Ptr, peer: Ptr) {
    && local in g && peer in g && local != peer && h.Keys == g.Keys
    && h[local].endpoint == Some(peer) && h[peer].endpoint == Some(local)
    && h[local].kind == g[local].kind & 0xfdff_ffff
    && h[peer].kind == (if g[local].kind & 0x0200_0000 != 0 then g[peer].kind & 0xfdff_ffff else g[peer].kind)
    && h[local].open == g[local].open && h[peer].open == g[peer].open
    && h[local].parent == g[local].parent && h[peer].parent == g[peer].parent
    && forall p <- g | p != local && p != peer :: h[p] == g[p]
  }

  /**
   A server (bit 21) and no longer a client (bit 20) connection, perhaps still connecting (bit 24), is
   new and joined with `local`; `take` has the last word on its type.
   */
  ghost predicate Started(g: Conns, h: Conns, local: Ptr, peer: Ptr, inprogress: bool, take: bv32 -> bv32) {
    && local in g && peer !in g
    && var kind := take((g[local].kind ^ 0x0010_0000) | 0x0020_0000 | if inprogress then 0x0100_0000 else 0);
       Joined(g[peer := Conn(true, kind, None, None)], h, local, peer)
  }

  lemma StartedBits(g: Conns, local: Ptr, peer: Ptr, inprogress: bool, take: bv32 -> bv32)
    requires local in g && peer !in g
    ensures var kind := take(PeerKind(g[local].kind, inprogress));
            Started(g, Loop(g[peer := Conn(true, kind, None, None)], local, peer), local, peer, inprogress, take)
  {
    hide Loop, Joined;
    LoopJoins(g[peer := Conn(true, take(PeerKind(g[local].kind, inprogress)), None, None)], local, peer);
  }

  lemma RecognizedBits(k: bv32)
    ensures Recognized(k) == k & 0xfdff_ffff && (Waiting(k) <==> k & 0x0200_0000 != 0)
    ensures !Waiting(k) ==> k & 0xfdff_ffff == k
  {
    BitApart(k);
    assert k & 0x0200_0000 == 0 ==> k & 0xfdff_ffff == k by {
      assert (k & 0xfdff_ffff) | 0 == k & 0xfdff_ffff;
    }
  }

  lemma BitApart(k: bv32)
    ensures (k & 0xfdff_ffff) | (k & 0x0200_0000) == k
  {
  }

  lemma LoopJoins(g: Conns, local: Ptr, peer: Ptr)
    requires local in g && peer in g && local != peer
    ensures Joined(g, Loop(g, local, peer), local, peer)
  {
    hide Recognized, Waiting;
    RecognizedBits(g[local].kind);
    RecognizedBits(g[peer].kind);
    assert Loop(g, local, peer).Keys == g.Keys;
  }

  /** A server connection inherits both bits from the client's. */
  lemma PeerBits(k: bv32, inprogress: bool)
    ensures var kind := (k ^ 0x0010_0000) | 0x0020_0000 | (if inprogress then 0x0100_0000 else 0);
            kind & 0x0804_0000 == k & 0x0804_0000 && (kind & 0xfdff_ffff) & 0x0804_0000 == k & 0x0804_0000
  {
  }
}
