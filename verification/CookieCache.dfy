/** The list of login cookies waiting to be redeemed (timps/oscar/ckcache.c). */
module CookieCache {
  import opened Basics
  import opened Wire

  const TIMEOUT := 60

  /** What a cookie stands for: a server address and a screen name. */
  datatype Ticket = Ticket(ck: Bytes, ip: Bytes, sn: Bytes)

  datatype Entry = Entry(ticket: Ticket, addtime: int)

  type Entries = seq<Entry>

  function Find(es: Entries, ck: Bytes): Option<Entry> {
    if es == [] then None
    else if es[0].ticket.ck == ck then Some(es[0])
    else Find(es[1..], ck)
  }

  function Without(es: Entries, ck: Bytes): Entries {
    if es == [] then []
    else if es[0].ticket.ck == ck then es[1..]
    else [es[0]] + Without(es[1..], ck)
  }

  /** The entries that survive a timer pass. */
  function Fresh(es: Entries, now: int): Entries {
    if es == [] then []
    else if now - es[0].addtime > TIMEOUT then Fresh(es[1..], now)
    else [es[0]] + Fresh(es[1..], now)
  }

  function Stale(es: Entries, now: int): Entries {
    if es == [] then []
    else if now - es[0].addtime > TIMEOUT then [es[0]] + Stale(es[1..], now)
    else Stale(es[1..], now)
  }

  predicate Distinct(es: Entries) {
    forall i, j | 0 <= i < j < |es| :: es[i].ticket.ck != es[j].ticket.ck
  }

  /** The tickets in the cache, each as often as it occurs. */
  function Bag(es: Entries): multiset<Ticket> {
    if es == [] then multiset{} else multiset{es[0].ticket} + Bag(es[1..])
  }

  lemma {:induction false} FindWhere(es: Entries, ck: Bytes) returns (i: nat)
    ensures Find(es, ck).Some? ==>
      && i < |es| && es[i] == Find(es, ck).value && es[i].ticket.ck == ck
      && Without(es, ck) == es[..i] + es[i + 1..]
    ensures Find(es, ck).None? ==> Without(es, ck) == es && forall e <- es :: e.ticket.ck != ck
  {
    i := 0;
    if es != [] && es[0].ticket.ck != ck {
      var j := FindWhere(es[1..], ck);
      i := j + 1;
      if Find(es, ck).Some? {
        assert [es[0]] + es[1..][..j] == es[..i] && es[1..][j + 1..] == es[i + 1..];
      } else {
        assert forall e <- es :: e == es[0] || e in es[1..];
      }
    }
  }

  /** Taking a cookie out leaves the others, and none with the same bytes. */
  lemma RemovedIsGone(es: Entries, ck: Bytes)
    requires Distinct(es)
    ensures Distinct(Without(es, ck)) && Find(Without(es, ck), ck).None?
  {
    hide Find, Without;
    var i := FindWhere(es, ck);
    var k := FindWhere(Without(es, ck), ck);
  }

  lemma {:induction false} WithoutConserves(es: Entries, ck: Bytes)
    requires Find(es, ck).Some?
    ensures Bag(es) == Bag(Without(es, ck)) + multiset{Find(es, ck).value.ticket}
  {
    if es[0].ticket.ck != ck {
      WithoutConserves(es[1..], ck);
    }
  }

  lemma {:induction false} TimerConserves(es: Entries, now: int)
    ensures Bag(es) == Bag(Fresh(es, now)) + Bag(Stale(es, now))
  {
    if es != [] {
      TimerConserves(es[1..], now);
    }
  }

  /** A timer pass keeps exactly the entries of at most 60 seconds. */
  lemma {:induction false} FreshMeans(es: Entries, now: int, e: Entry)
    ensures e in Fresh(es, now) <==> e in es && now - e.addtime <= 60
  {
    if es != [] {
      FreshMeans(es[1..], now, e);
      assert e in es <==> e == es[0] || e in es[1..];
    }
  }

  lemma {:induction false} FreshDistinct(es: Entries, now: int)
    requires Distinct(es)
    ensures Distinct(Fresh(es, now))
  {
    if es != [] {
      var tail := Fresh(es[1..], now);
      FreshDistinct(es[1..], now);
      forall i | 0 <= i < |tail| ensures tail[i].ticket.ck != es[0].ticket.ck {
        FreshMeans(es[1..], now, tail[i]);
        assert tail[i] in es[1..];
      }
    }
  }

  class Cache {
    var entries: Entries

    constructor ()
      ensures entries == []
    {
      entries := [];
    }

    /** toscar_ckcache__find: the position of a cookie */
    method Locate(ck: Bytes) returns (i: nat)
      ensures i <= |entries|
      ensures i < |entries| ==>
        Find(entries, ck) == Some(entries[i]) && Without(entries, ck) == entries[..i] + entries[i + 1..]
      ensures i == |entries| ==> Find(entries, ck).None?
    {
      i := 0;
      while i < |entries| && entries[i].ticket.ck != ck
        invariant i <= |entries|
        invariant Find(entries[i..], ck) == Find(entries, ck)
        invariant entries[..i] + Without(entries[i..], ck) == Without(entries, ck)
      {
        assert entries[i..][1..] == entries[i + 1..] && entries[..i + 1] == entries[..i] + [entries[i]];
        i := i + 1;
      }
    }

    /** toscar_ckcache_add at time `now`: refuses an empty cookie and one already there */
    method Add(t: Ticket, now: int) returns (ok: bool)
      modifies this
      ensures ok == (t.ck != [] && Find(old(entries), t.ck).None?)
      ensures entries == if ok then [Entry(t, now)] + old(entries) else old(entries)
      ensures Distinct(old(entries)) ==> Distinct(entries)
    {
      if t.ck == [] {
        return false;
      }
      var i := Locate(t.ck);
      if i < |entries| {
        return false;
      }
      var k := FindWhere(entries, t.ck);
      entries := [Entry(t, now)] + entries;
      return true;
    }

    /** toscar_ckcache_rem: a cookie can be taken out once */
    method Rem(ck: Bytes) returns (r: Option<Ticket>)
      modifies this
      ensures r == if Find(old(entries), ck).Some? then Some(Find(old(entries), ck).value.ticket) else None
      ensures entries == Without(old(entries), ck)
    {
      var i := Locate(ck);
      if i == |entries| {
        var k := FindWhere(entries, ck);
        return None;
      }
      r := Some(entries[i].ticket);
      entries := entries[..i] + entries[i + 1..];
    }

    /** toscar_ckcache_timer */
    method Timer(now: int)
      modifies this
      ensures entries == Fresh(old(entries), now)
    {
      var i := 0;
      while i < |entries|
        invariant i <= |entries|
        invariant entries[..i] + Fresh(entries[i..], now) == Fresh(old(entries), now)
        decreases |entries| - i
      {
        assert entries[i..][1..] == entries[i + 1..];
        if now - entries[i].addtime > TIMEOUT {
          ghost var before := entries;
          entries := entries[..i] + entries[i + 1..];
          assert entries[..i] == before[..i] && entries[i..] == before[i + 1..];
        } else {
          assert entries[..i + 1] == entries[..i] + [entries[i]];
          i := i + 1;
        }
      }
    }
  }
}
