/** Timed cache lists (naf/cache.c). */
module AgeCache {
  import opened Basics

  /** Keys and values are opaque to the cache. */
  datatype Pair = Pair(key: nat, value: nat, addtime: int)

  type Matcher = (nat, nat) -> bool

  /** The pairs are newest first; `lastrun` is when the timer last went through them. */
  datatype List = List(lastrun: int, timeout: int, pairs: seq<Pair>)

  function Young(ps: seq<Pair>, timeout: int, now: int): seq<Pair> {
    if ps == [] then []
    else if now - ps[0].addtime >= timeout then Young(ps[1..], timeout, now)
    else [ps[0]] + Young(ps[1..], timeout, now)
  }

  function Unmatched(ps: seq<Pair>, m: Matcher): seq<Pair> {
    if ps == [] then []
    else if m(ps[0].key, ps[0].value) then Unmatched(ps[1..], m)
    else [ps[0]] + Unmatched(ps[1..], m)
  }

  /** The first match, touched at time `now`. */
  function Touched(ps: seq<Pair>, m: Matcher, now: int): seq<Pair> {
    if ps == [] then []
    else if m(ps[0].key, ps[0].value) then [ps[0].(addtime := now)] + ps[1..]
    else [ps[0]] + Touched(ps[1..], m, now)
  }

  datatype Event =
    | Add(key: nat, value: nat, now: int)
    | Hit(m: Matcher, now: int)
    | Remove(m: Matcher, now: int)
    | Timer(now: int)

  function Step(l: List, ev: Event): List {
    match ev
    case Add(k, v, now) => l.(pairs := [Pair(k, v, now)] + l.pairs)
    case Hit(m, now) => l.(pairs := Touched(l.pairs, m, now))
    case Remove(m, now) => l.(pairs := Unmatched(l.pairs, m))
    case Timer(now) =>
      if now - l.lastrun < l.timeout then l
      else l.(pairs := Young(l.pairs, l.timeout, now), lastrun := now)
  }

  /** From a list made at time `start`. */
  function Run(start: int, timeout: int, evs: seq<Event>): List {
    if evs == [] then List(start, timeout, []) else Step(Run(start, timeout, evs[..|evs| - 1]), evs[|evs| - 1])
  }

  function Clock(start: int, evs: seq<Event>): int {
    if evs == [] then start else evs[|evs| - 1].now
  }

  /** The clock never goes back. */
  predicate Monotone(start: int, evs: seq<Event>) {
    forall i | 0 <= i < |evs| :: Clock(start, evs[..i]) <= evs[i].now
  }

  lemma YoungTurn(ps: seq<Pair>, timeout: int, now: int)
    ensures Young([], timeout, now) == []
    ensures ps != [] ==>
      Young(ps, timeout, now) == (if now - ps[0].addtime < timeout then [ps[0]] else []) + Young(ps[1..], timeout, now)
  {
  }

  lemma UnmatchedTurn(ps: seq<Pair>, m: Matcher)
    ensures Unmatched([], m) == []
    ensures ps != [] ==>
      Unmatched(ps, m) == (if m(ps[0].key, ps[0].value) then [] else [ps[0]]) + Unmatched(ps[1..], m)
  {
  }

  /** Every pair was younger than the timeout when the timer last went through. */
  predicate Aged(l: List, clock: int) {
    l.lastrun <= clock && forall p <- l.pairs :: p.addtime <= clock && l.lastrun - p.addtime < l.timeout
  }

  lemma {:induction false} YoungMeans(ps: seq<Pair>, timeout: int, now: int, p: Pair)
    ensures p in Young(ps, timeout, now) <==> p in ps && now - p.addtime < timeout
  {
    if ps != [] {
      YoungMeans(ps[1..], timeout, now, p);
      assert p in ps <==> p == ps[0] || p in ps[1..];
    }
  }

  lemma {:induction false} UnmatchedMeans(ps: seq<Pair>, m: Matcher, p: Pair)
    ensures p in Unmatched(ps, m) <==> p in ps && !m(p.key, p.value)
  {
    if ps != [] {
      UnmatchedMeans(ps[1..], m, p);
      assert p in ps <==> p == ps[0] || p in ps[1..];
    }
  }

  lemma {:induction false} TouchedMeans(ps: seq<Pair>, m: Matcher, now: int, p: Pair)
    requires p in Touched(ps, m, now)
    ensures p in ps || (p.addtime == now && m(p.key, p.value))
  {
    if ps != [] && !m(ps[0].key, ps[0].value) && p != ps[0] {
      TouchedMeans(ps[1..], m, now, p);
    }
  }

  lemma StepAged(l: List, ev: Event, clock: int)
    requires Aged(l, clock) && l.timeout > 0 && clock <= ev.now
    ensures Aged(Step(l, ev), ev.now) && Step(l, ev).timeout == l.timeout
  {
    forall p <- Step(l, ev).pairs ensures p.addtime <= ev.now && Step(l, ev).lastrun - p.addtime < l.timeout {
      match ev
      case Add(_, _, _) =>
      case Hit(m, now) => TouchedMeans(l.pairs, m, now, p);
      case Remove(m, now) => UnmatchedMeans(l.pairs, m, p);
      case Timer(now) => YoungMeans(l.pairs, l.timeout, now, p);
    }
  }

  lemma {:induction false} RunAged(start: int, timeout: int, evs: seq<Event>)
    requires timeout > 0 && Monotone(start, evs)
    ensures Aged(Run(start, timeout, evs), Clock(start, evs)) && Run(start, timeout, evs).timeout == timeout
    decreases |evs|
  {
    if evs != [] {
      var init := evs[..|evs| - 1];
      assert forall i | 0 <= i < |init| :: init[..i] == evs[..i];
      RunAged(start, timeout, init);
      StepAged(Run(start, timeout, init), evs[|evs| - 1], Clock(start, init));
    }
  }

  // ---- The same told by the events alone: no time is stored, a pair is the number of the event that added it

  function KeyAt(evs: seq<Event>, id: nat): (nat, nat) {
    if id < |evs| && evs[id].Add? then (evs[id].key, evs[id].value) else (0, 0)
  }

  predicate MatchesAt(evs: seq<Event>, id: nat, m: Matcher) {
    m(KeyAt(evs, id).0, KeyAt(evs, id).1)
  }

  function FirstAt(evs: seq<Event>, ids: seq<nat>, m: Matcher): Option<nat> {
    if ids == [] then None
    else if MatchesAt(evs, ids[0], m) then Some(ids[0])
    else FirstAt(evs, ids[1..], m)
  }

  /** When a pair was last added or hit, where a hit is the first match among the pairs that are there. */
  function LastUse(start: int, timeout: int, evs: seq<Event>, id: nat): int
    decreases |evs|, 0
  {
    if evs == [] then start
    else
      var (init, ev) := (evs[..|evs| - 1], evs[|evs| - 1]);
      if ev.Add? && id == |init| then ev.now
      else if ev.Hit? && FirstAt(init, Live(start, timeout, init), ev.m) == Some(id) then ev.now
      else LastUse(start, timeout, init, id)
  }

  /** When the timer last went through the pairs. */
  function LastPass(start: int, timeout: int, evs: seq<Event>): int {
    if evs == [] then start
    else
      var (init, ev) := (evs[..|evs| - 1], evs[|evs| - 1]);
      if ev.Timer? && ev.now - LastPass(start, timeout, init) >= timeout then ev.now
      else LastPass(start, timeout, init)
  }

  /** The pairs that are there, newest first. */
  function Live(start: int, timeout: int, evs: seq<Event>): seq<nat>
    decreases |evs|, 1
  {
    if evs == [] then []
    else
      var (init, ev) := (evs[..|evs| - 1], evs[|evs| - 1]);
      var ids := Live(start, timeout, init);
      match ev
      case Add(_, _, _) => [|init|] + ids
      case Hit(_, _) => ids
      case Remove(m, _) => Filter((id: nat) => !MatchesAt(init, id, m), ids)
      case Timer(now) =>
        if now - LastPass(start, timeout, init) < timeout then ids
        else Filter((id: nat) => now - LastUse(start, timeout, init, id) < timeout, ids)
  }

  function Filter(f: nat -> bool, ids: seq<nat>): seq<nat> {
    if ids == [] then [] else (if f(ids[0]) then [ids[0]] else []) + Filter(f, ids[1..])
  }

  /** The pairs as stored. */
  function PairAt(start: int, timeout: int, evs: seq<Event>, id: nat): Pair {
    Pair(KeyAt(evs, id).0, KeyAt(evs, id).1, LastUse(start, timeout, evs, id))
  }

  ghost predicate Mirrors(l: List, start: int, timeout: int, evs: seq<Event>, ids: seq<nat>) {
    && |ids| == |l.pairs|
    && (forall i | 0 <= i < |ids| :: ids[i] < |evs| && evs[ids[i]].Add?)
    && (forall i, j | 0 <= i < j < |ids| :: ids[i] > ids[j])
    && (forall i | 0 <= i < |ids| :: l.pairs[i] == PairAt(start, timeout, evs, ids[i]))
  }

  lemma {:induction false} FilterMeans(f: nat -> bool, ids: seq<nat>, id: nat)
    ensures id in Filter(f, ids) <==> id in ids && f(id)
  {
    if ids != [] {
      FilterMeans(f, ids[1..], id);
      assert id in ids <==> id == ids[0] || id in ids[1..];
    }
  }

  function Kept(ps: seq<Pair>, keep: Pair -> bool): seq<Pair> {
    if ps == [] then [] else (if keep(ps[0]) then [ps[0]] else []) + Kept(ps[1..], keep)
  }

  /** The pairs and the numbers run in parallel, the numbers downwards. */
  ghost predicate Parallel(ps: seq<Pair>, ids: seq<nat>, g: nat -> Pair) {
    && |ps| == |ids|
    && (forall i | 0 <= i < |ids| :: ps[i] == g(ids[i]))
    && (forall i, j | 0 <= i < j < |ids| :: ids[i] > ids[j])
  }

  lemma ParallelTail(ps: seq<Pair>, ids: seq<nat>, g: nat -> Pair)
    requires Parallel(ps, ids, g) && ids != []
    ensures Parallel(ps[1..], ids[1..], g) && forall j <- ids[1..] :: ids[0] > j
  {
  }

  lemma ParallelCons(ps: seq<Pair>, ids: seq<nat>, g: nat -> Pair, id: nat)
    requires Parallel(ps, ids, g) && forall j <- ids :: id > j
    ensures Parallel([g(id)] + ps, [id] + ids, g)
  {
    var (qs, js) := ([g(id)] + ps, [id] + ids);
    forall i, j | 0 <= i < j < |js| ensures js[i] > js[j] {
      assert js[j] == ids[j - 1] && ids[j - 1] in ids;
    }
    forall i | 0 <= i < |js| ensures qs[i] == g(js[i]) {
      assert i > 0 ==> qs[i] == ps[i - 1] && js[i] == ids[i - 1];
    }
  }

  lemma FilterTurn(ps: seq<Pair>, ids: seq<nat>, f: nat -> bool, keep: Pair -> bool)
    requires ps != [] && ids != []
    ensures Kept(ps, keep) == if keep(ps[0]) then [ps[0]] + Kept(ps[1..], keep) else Kept(ps[1..], keep)
    ensures Filter(f, ids) == if f(ids[0]) then [ids[0]] + Filter(f, ids[1..]) else Filter(f, ids[1..])
  {
    assert [] + Kept(ps[1..], keep) == Kept(ps[1..], keep) && [] + Filter(f, ids[1..]) == Filter(f, ids[1..]);
  }

  /** Filtering the pairs is filtering the numbers. */
  lemma {:induction false} FilterPairs(ps: seq<Pair>, ids: seq<nat>, g: nat -> Pair, f: nat -> bool, keep: Pair -> bool)
    requires Parallel(ps, ids, g) && forall i <- ids :: keep(g(i)) <==> f(i)
    ensures Parallel(Kept(ps, keep), Filter(f, ids), g) && forall j <- Filter(f, ids) :: j in ids
  {
    if ids != [] {
      assert ps[0] == g(ids[0]);
      ParallelTail(ps, ids, g);
      FilterTurn(ps, ids, f, keep);
      hide Parallel, Filter, Kept;
      FilterPairs(ps[1..], ids[1..], g, f, keep);
      if f(ids[0]) {
        ParallelCons(Kept(ps[1..], keep), Filter(f, ids[1..]), g, ids[0]);
      }
    }
  }

  lemma {:induction false} YoungKept(ps: seq<Pair>, timeout: int, now: int)
    ensures Young(ps, timeout, now) == Kept(ps, (p: Pair) => now - p.addtime < timeout)
  {
    if ps != [] {
      YoungKept(ps[1..], timeout, now);
    }
  }

  lemma {:induction false} UnmatchedKept(ps: seq<Pair>, m: Matcher)
    ensures Unmatched(ps, m) == Kept(ps, (p: Pair) => !m(p.key, p.value))
  {
    if ps != [] {
      UnmatchedKept(ps[1..], m);
    }
  }

  /** The first match and its place. */
  lemma {:induction false} TouchedFirst(ps: seq<Pair>, m: Matcher, now: int) returns (i: nat)
    ensures i <= |ps| && (forall k | 0 <= k < i :: !m(ps[k].key, ps[k].value))
    ensures i < |ps| ==> m(ps[i].key, ps[i].value) && Touched(ps, m, now) == ps[i := ps[i].(addtime := now)]
    ensures i == |ps| ==> Touched(ps, m, now) == ps
  {
    i := 0;
    if ps != [] && !m(ps[0].key, ps[0].value) {
      var j := TouchedFirst(ps[1..], m, now);
      i := j + 1;
      if i < |ps| {
        assert [ps[0]] + ps[1..][j := ps[i].(addtime := now)] == ps[i := ps[i].(addtime := now)];
      }
    }
  }

  lemma {:induction false} FirstAtIs(evs: seq<Event>, ids: seq<nat>, m: Matcher, i: nat)
    requires i <= |ids| && (forall k | 0 <= k < i :: !MatchesAt(evs, ids[k], m))
    requires i < |ids| ==> MatchesAt(evs, ids[i], m)
    ensures FirstAt(evs, ids, m) == if i < |ids| then Some(ids[i]) else None
  {
    if i > 0 {
      FirstAtIs(evs, ids[1..], m, i - 1);
    }
  }

  lemma UseStays(start: int, timeout: int, evs: seq<Event>, id: nat)
    requires evs != [] && id < |evs| - 1
    ensures var (init, ev) := (evs[..|evs| - 1], evs[|evs| - 1]);
            && KeyAt(evs, id) == KeyAt(init, id)
            && (!ev.Hit? || FirstAt(init, Live(start, timeout, init), ev.m) != Some(id) ==>
                LastUse(start, timeout, evs, id) == LastUse(start, timeout, init, id))
            && (ev.Hit? && FirstAt(init, Live(start, timeout, init), ev.m) == Some(id) ==>
                LastUse(start, timeout, evs, id) == ev.now)
  {
    hide FirstAt, Live;
  }

  lemma HitMirrors(l: List, start: int, timeout: int, evs: seq<Event>)
    requires evs != [] && evs[|evs| - 1].Hit?
    requires Mirrors(l, start, timeout, evs[..|evs| - 1], Live(start, timeout, evs[..|evs| - 1]))
    ensures Mirrors(Step(l, evs[|evs| - 1]), start, timeout, evs, Live(start, timeout, evs[..|evs| - 1]))
  {
    hide Live, LastUse, FirstAt, Touched;
    var (init, ev) := (evs[..|evs| - 1], evs[|evs| - 1]);
    var ids := Live(start, timeout, init);
    var i := TouchedFirst(l.pairs, ev.m, ev.now);
    FirstAtIs(init, ids, ev.m, i);
    forall k | 0 <= k < |ids| ensures Step(l, ev).pairs[k] == PairAt(start, timeout, evs, ids[k]) {
      UseStays(start, timeout, evs, ids[k]);
      assert l.pairs[k] == PairAt(start, timeout, init, ids[k]);
    }
  }

  lemma KeepMirrors(l: List, start: int, timeout: int, evs: seq<Event>, f: nat -> bool, keep: Pair -> bool)
    requires evs != [] && !evs[|evs| - 1].Hit?
    requires Mirrors(l, start, timeout, evs[..|evs| - 1], Live(start, timeout, evs[..|evs| - 1]))
    requires forall id: nat :: keep(PairAt(start, timeout, evs[..|evs| - 1], id)) <==> f(id)
    ensures Mirrors(l.(pairs := Kept(l.pairs, keep)), start, timeout, evs,
                    Filter(f, Live(start, timeout, evs[..|evs| - 1])))
  {
    hide Live, LastUse, Kept, Filter;
    var init := evs[..|evs| - 1];
    var ids := Live(start, timeout, init);
    var g := (id: nat) => PairAt(start, timeout, init, id);
    FilterPairs(l.pairs, ids, g, f, keep);
    var js := Filter(f, ids);
    assert forall j <- js :: j in ids;
    forall k | 0 <= k < |js|
      ensures js[k] < |evs| && evs[js[k]].Add? && Kept(l.pairs, keep)[k] == PairAt(start, timeout, evs, js[k])
    {
      assert js[k] in ids;
      UseStays(start, timeout, evs, js[k]);
    }
  }

  lemma SameMirrors(l: List, start: int, timeout: int, evs: seq<Event>)
    requires evs != [] && !evs[|evs| - 1].Hit?
    requires Mirrors(l, start, timeout, evs[..|evs| - 1], Live(start, timeout, evs[..|evs| - 1]))
    ensures Mirrors(l, start, timeout, evs, Live(start, timeout, evs[..|evs| - 1]))
  {
    hide Live, LastUse;
    var ids := Live(start, timeout, evs[..|evs| - 1]);
    forall i | 0 <= i < |ids| ensures l.pairs[i] == PairAt(start, timeout, evs, ids[i]) {
      UseStays(start, timeout, evs, ids[i]);
    }
  }

  lemma AddMirrors(l: List, start: int, timeout: int, evs: seq<Event>)
    requires evs != [] && evs[|evs| - 1].Add?
    requires Mirrors(l, start, timeout, evs[..|evs| - 1], Live(start, timeout, evs[..|evs| - 1]))
    ensures Mirrors(Step(l, evs[|evs| - 1]), start, timeout, evs, [|evs| - 1] + Live(start, timeout, evs[..|evs| - 1]))
  {
    SameMirrors(l, start, timeout, evs);
    hide Live;
  }

  /** In every run the list holds the pairs that are there, each with the time of its last add or hit. */
  lemma {:induction false} RunMirrors(start: int, timeout: int, evs: seq<Event>)
    ensures var l := Run(start, timeout, evs);
            && Mirrors(l, start, timeout, evs, Live(start, timeout, evs))
            && l.timeout == timeout && l.lastrun == LastPass(start, timeout, evs)
    decreases |evs|
  {
    hide Mirrors, Young, Unmatched, Touched, LastUse, Filter;
    if evs == [] {
      NothingMirrored(start, timeout);
    } else {
      var (init, ev) := (evs[..|evs| - 1], evs[|evs| - 1]);
      RunMirrors(start, timeout, init);
      var l := Run(start, timeout, init);
      match ev
      case Add(_, _, _) => AddMirrors(l, start, timeout, evs);
      case Hit(_, _) => HitMirrors(l, start, timeout, evs);
      case Remove(m, _) =>
        UnmatchedKept(l.pairs, m);
        KeepMirrors(l, start, timeout, evs, (id: nat) => !MatchesAt(init, id, m), (p: Pair) => !m(p.key, p.value));
      case Timer(now) =>
        if now - l.lastrun < timeout {
          SameMirrors(l, start, timeout, evs);
        } else {
          YoungKept(l.pairs, timeout, now);
          KeepMirrors(l, start, timeout, evs, (id: nat) => now - LastUse(start, timeout, init, id) < timeout,
                      (p: Pair) => now - p.addtime < timeout);
          PassMirrors(l.(pairs := Young(l.pairs, timeout, now)), start, timeout, evs, now);
        }
    }
  }

  lemma NothingMirrored(start: int, timeout: int)
    ensures Mirrors(List(start, timeout, []), start, timeout, [], [])
  {
  }

  lemma PassMirrors(l: List, start: int, timeout: int, evs: seq<Event>, now: int)
    ensures forall ids :: Mirrors(l, start, timeout, evs, ids) ==> Mirrors(l.(lastrun := now), start, timeout, evs, ids)
  {
  }

  /**
   After every timer pass of every run, each pair that is there is at most 2 * timeout - 2 seconds
   past its last add or hit, and each pair the pass dropped was at least timeout seconds past it.
   */
  lemma AgeBound(start: int, timeout: int, evs: seq<Event>, now: int)
    requires timeout > 0 && Monotone(start, evs + [Timer(now)])
    ensures var (ids, ids') := (Live(start, timeout, evs), Live(start, timeout, evs + [Timer(now)]));
            && (forall id <- ids' :: id in ids && now - LastUse(start, timeout, evs, id) <= 2 * timeout - 2)
            && (forall id <- ids :: id !in ids' ==> now - LastUse(start, timeout, evs, id) >= timeout)
            && Mirrors(Run(start, timeout, evs + [Timer(now)]), start, timeout, evs + [Timer(now)], ids')
  {
    var all := evs + [Timer(now)];
    assert forall i | 0 <= i < |evs| :: evs[..i] == all[..i] && all[i] == evs[i];
    assert all[..|evs|] == evs && all[|evs|] == Timer(now);
    RunMirrors(start, timeout, all);
    LiveAged(start, timeout, evs);
    LivePass(start, timeout, evs, now);
    hide Run, Live, LastUse, Mirrors;
  }

  /** A timer pass keeps the pairs that are young enough, if it is due at all. */
  lemma LivePass(start: int, timeout: int, evs: seq<Event>, now: int)
    ensures var (ids, ids') := (Live(start, timeout, evs), Live(start, timeout, evs + [Timer(now)]));
            var due := now - LastPass(start, timeout, evs) >= timeout;
            forall id: nat :: id in ids' <==> id in ids && (due ==> now - LastUse(start, timeout, evs, id) < timeout)
  {
    var all := evs + [Timer(now)];
    assert all[..|evs|] == evs && all[|evs|] == Timer(now);
    var ids := Live(start, timeout, evs);
    var young := (id: nat) => now - LastUse(start, timeout, evs, id) < timeout;
    forall id: nat ensures id in Filter(young, ids) <==> id in ids && young(id) {
      FilterMeans(young, ids, id);
    }
  }

  /** Every pair was used less than the timeout before the last pass. */
  lemma LiveAged(start: int, timeout: int, evs: seq<Event>)
    requires timeout > 0 && Monotone(start, evs)
    ensures LastPass(start, timeout, evs) <= Clock(start, evs)
    ensures forall id <- Live(start, timeout, evs) ::
      LastUse(start, timeout, evs, id) <= Clock(start, evs)
      && LastPass(start, timeout, evs) - LastUse(start, timeout, evs, id) < timeout
  {
    hide Run, Live, LastUse, LastPass;
    RunAged(start, timeout, evs);
    RunMirrors(start, timeout, evs);
    var (l, ids) := (Run(start, timeout, evs), Live(start, timeout, evs));
    forall id <- ids
      ensures LastUse(start, timeout, evs, id) <= Clock(start, evs)
      ensures LastPass(start, timeout, evs) - LastUse(start, timeout, evs, id) < timeout
    {
      var i :| 0 <= i < |ids| && ids[i] == id;
      assert l.pairs[i] == PairAt(start, timeout, evs, id) && l.pairs[i] in l.pairs;
    }
  }

  /** A pair hit one second before the timer passes is kept, however long ago it was added. */
  lemma HitKeeps(timeout: int)
    requires timeout > 1
    ensures var evs := [Add(7, 7, 0), Hit((_, _) => true, timeout - 1)];
            && Monotone(0, evs + [Timer(timeout)])
            && Run(0, timeout, evs + [Timer(timeout)]).pairs == [Pair(7, 7, timeout - 1)]
  {
    var h := Hit((_, _) => true, timeout - 1);
    var evs := [Add(7, 7, 0), h, Timer(timeout)];
    assert [Add(7, 7, 0), h] + [Timer(timeout)] == evs;
    assert evs[..0] == [] && evs[..1] == [evs[0]] && evs[..2] == [evs[0], h];
    assert [evs[0], h][..1] == [evs[0]] && [evs[0]][..0] == [];
    assert Run(0, timeout, [evs[0]]).pairs == [Pair(7, 7, 0)];
    var p := Pair(7, 7, timeout - 1);
    assert Run(0, timeout, [evs[0], h]) == List(0, timeout, [p]);
    assert [p][1..] == [] && Young([p], timeout, timeout) == [p] + Young([], timeout, timeout) == [p];
  }

  /** The bound is reached, for every timeout. */
  lemma AgeBoundTight(timeout: int)
    requires timeout > 0
    ensures var evs := [Add(7, 7, 1), Timer(timeout), Timer(2 * timeout - 1)];
            Monotone(0, evs) && Run(0, timeout, evs).pairs == [Pair(7, 7, 1)]
            && evs[2].now - 1 == 2 * timeout - 2
  {
    var evs := [Add(7, 7, 1), Timer(timeout), Timer(2 * timeout - 1)];
    assert evs[..0] == [] && evs[..1] == [evs[0]] && evs[..2] == [evs[0], evs[1]];
    assert [evs[0], evs[1]][..1] == [evs[0]] && [evs[0]][..0] == [];
    var l1 := List(0, timeout, [Pair(7, 7, 1)]);
    assert Run(0, timeout, [evs[0]]) == l1;
    assert Young(l1.pairs, timeout, timeout) == [Pair(7, 7, 1)] + Young([], timeout, timeout) == l1.pairs by {
      assert l1.pairs[1..] == [];
    }
    assert Run(0, timeout, [evs[0], evs[1]]) == l1.(lastrun := timeout);
  }

  // ---- The routines

  class CacheList {
    var lastrun: int
    const timeout: int
    var pairs: seq<Pair>

    ghost function View(): List
      reads this
    {
      List(lastrun, timeout, pairs)
    }

    /** naf_cache_addlist */
    constructor (timeout: int, now: int)
      ensures View() == List(now, timeout, [])
    {
      this.lastrun, this.timeout, this.pairs := now, timeout, [];
    }

    /** naf_cache_addpair */
    method AddPair(key: nat, value: nat, now: int)
      modifies this
      ensures View() == Step(old(View()), Add(key, value, now))
      ensures pairs == [Pair(key, value, now)] + old(pairs)
    {
      pairs := [Pair(key, value, now)] + pairs;
    }

    /** naf_cache_findpair; a hit counts as an add */
    method FindPair(m: Matcher, hit: bool, now: int) returns (r: Option<Pair>)
      modifies this
      ensures View() == if hit then Step(old(View()), Hit(m, now)) else old(View())
      ensures r.None? ==> pairs == old(pairs) && forall p <- old(pairs) :: !m(p.key, p.value)
      ensures r.Some? ==> exists i | 0 <= i < |old(pairs)| ::
        && r.value == old(pairs)[i] && m(r.value.key, r.value.value)
        && (forall k | 0 <= k < i :: !m(old(pairs)[k].key, old(pairs)[k].value))
        && pairs == if hit then old(pairs)[i := r.value.(addtime := now)] else old(pairs)
    {
      hide Touched;
      ghost var first := TouchedFirst(pairs, m, now);
      for i := 0 to |pairs|
        invariant pairs == old(pairs) && lastrun == old(lastrun)
        invariant forall k | 0 <= k < i :: !m(pairs[k].key, pairs[k].value)
      {
        var p := pairs[i];
        if m(p.key, p.value) {
          assert i == first;
          if hit {
            pairs := pairs[i := p.(addtime := now)];
          }
          return Some(p);
        }
      }
      return None;
    }

    /** naf_cache_rempairs */
    method RemPairs(m: Matcher)
      modifies this
      ensures View() == old(View()).(pairs := Unmatched(old(pairs), m))
      ensures forall p: Pair :: p in pairs <==> p in old(pairs) && !m(p.key, p.value)
    {
      hide Unmatched;
      UnmatchedTurn([], m);
      var i := 0;
      while i < |pairs|
        invariant i <= |pairs| && lastrun == old(lastrun)
        invariant pairs[..i] + Unmatched(pairs[i..], m) == Unmatched(old(pairs), m)
        decreases |pairs| - i
      {
        UnmatchedTurn(pairs[i..], m);
        assert pairs[i..][1..] == pairs[i + 1..];
        if m(pairs[i].key, pairs[i].value) {
          ghost var before := pairs;
          pairs := pairs[..i] + pairs[i + 1..];
          assert pairs[..i] == before[..i] && pairs[i..] == before[i + 1..];
        } else {
          assert pairs[..i + 1] == pairs[..i] + [pairs[i]];
          i := i + 1;
        }
      }
      assert pairs[i..] == [] && pairs[..i] + [] == pairs;
      forall p: Pair ensures p in Unmatched(old(pairs), m) <==> p in old(pairs) && !m(p.key, p.value) {
        UnmatchedMeans(old(pairs), m, p);
      }
    }

    /** The traversal of timerhandler_iter */
    method Sweep(now: int)
      modifies this`pairs
      ensures pairs == Young(old(pairs), timeout, now)
    {
      hide Young;
      YoungTurn([], timeout, now);
      var i := 0;
      while i < |pairs|
        invariant i <= |pairs|
        invariant pairs[..i] + Young(pairs[i..], timeout, now) == Young(old(pairs), timeout, now)
        decreases |pairs| - i
      {
        YoungTurn(pairs[i..], timeout, now);
        assert pairs[i..][1..] == pairs[i + 1..];
        if now - pairs[i].addtime >= timeout {
          ghost var before := pairs;
          pairs := pairs[..i] + pairs[i + 1..];
          assert pairs[..i] == before[..i] && pairs[i..] == before[i + 1..];
        } else {
          assert pairs[..i + 1] == pairs[..i] + [pairs[i]];
          i := i + 1;
        }
      }
      assert pairs[i..] == [] && pairs[..i] + [] == pairs;
    }

    /** timerhandler_iter on one list */
    method TimerPass(now: int)
      modifies this
      ensures View() == Step(old(View()), Timer(now))
      ensures now - old(lastrun) < timeout ==> pairs == old(pairs) && lastrun == old(lastrun)
      ensures now - old(lastrun) >= timeout ==>
        lastrun == now && forall p: Pair :: p in pairs <==> p in old(pairs) && now - p.addtime < timeout
    {
      hide Young;
      if now - lastrun < timeout {
        return;
      }
      Sweep(now);
      lastrun := now;
      forall p: Pair ensures p in pairs <==> p in old(pairs) && now - p.addtime < timeout {
        YoungMeans(old(pairs), timeout, now, p);
      }
    }
  }
}
