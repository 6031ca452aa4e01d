/**
  The vault's store of outstanding nonces: a map pruned on every registration, a 30-second
  window and single use. The reference definition is the unpruned history of registrations and
  consumptions; the store is proved to answer exactly as that history does.
 */
module Nonces {
  import opened Prelude
  import opened Clocks

  type Nonce = seq<byte>

  const WINDOW_MS: nat := 30_000

  // ----- the event history

  datatype Event = Registered(nonce: Nonce, at: nat) | Consumed(nonce: Nonce, at: nat)

  type History = seq<Event>

  /** The time of the latest registration of `n` since `n` was last consumed. */
  function Outstanding(h: History, n: Nonce): Option<nat>
  {
    if h == [] then None
    else
      var last := h[|h| - 1];
      if last.nonce != n then Outstanding(h[..|h| - 1], n)
      else if last.Registered? then Some(last.at) else None
  }

  /** What consuming `n` at time `now` must answer. */
  predicate Live(h: History, n: Nonce, now: nat)
  {
    var since := Outstanding(h, n);
    since.Some? && now - since.value < WINDOW_MS
  }

  /** The store forgets an outstanding nonce only once its window has passed. */
  ghost predicate Refines(m: map<Nonce, nat>, h: History, now: nat)
  {
    && (forall n :: n in m ==> Outstanding(h, n) == Some(m[n]) && m[n] <= now)
    && (forall n {:trigger Outstanding(h, n)} ::
          var since := Outstanding(h, n);
          since.Some? && n !in m ==> now - since.value >= WINDOW_MS)
  }

  lemma RefinesLater(m: map<Nonce, nat>, h: History, now: nat, later: nat)
    requires Refines(m, h, now) && now <= later
    ensures Refines(m, h, later)
  {
  }

  // ----- the two critical sections

  /** Pruning between times `t0` and `t1`. */
  ghost predicate PruneRel(m: map<Nonce, nat>, t0: nat, t1: nat, m': map<Nonce, nat>)
  {
    && (forall k :: k in m' ==> k in m && m'[k] == m[k] && t0 - m[k] < WINDOW_MS)
    && (forall k :: k in m && k !in m' ==> t1 - m[k] >= WINDOW_MS)
  }

  /** `register` entered at time `t0` and inserting at time `t1`: entries are examined one by one
      in between, so an entry that expires meanwhile may be kept or dropped. */
  ghost predicate RegisterRel(m: map<Nonce, nat>, n: Nonce, t0: nat, t1: nat, m': map<Nonce, nat>)
  {
    && t0 <= t1
    && n in m' && m'[n] == t1
    && (forall k :: k in m' && k != n ==> k in m && m'[k] == m[k] && t0 - m[k] < WINDOW_MS)
    && (forall k :: k in m && k != n && t1 - m[k] < WINDOW_MS ==> k in m')
  }

  /** Each entry is examined at a time of its own, and kept exactly if its window has not passed then. */
  ghost predicate ExaminedAt(m: map<Nonce, nat>, n: Nonce, t0: nat, t1: nat, at: map<Nonce, nat>,
                             m': map<Nonce, nat>)
  {
    && at.Keys == m.Keys
    && (forall k :: k in m ==> t0 <= at[k] <= t1)
    && (forall k :: k != n ==> (k in m' <==> k in m && at[k] - m[k] < WINDOW_MS))
    && (forall k :: k in m' && k != n ==> m'[k] == m[k])
  }

  /** `consume` reading the age of the removed entry at time `t`. */
  ghost predicate ConsumeRel(m: map<Nonce, nat>, n: Nonce, t: nat, m': map<Nonce, nat>, ok: bool)
  {
    && m' == m - {n}
    && (ok <==> n in m && t - m[n] < WINDOW_MS)
  }

  lemma InsertPruned(m: map<Nonce, nat>, n: Nonce, t0: nat, t: nat, pruned: map<Nonce, nat>, t1: nat)
    requires PruneRel(m, t0, t, pruned) && t0 <= t <= t1
    ensures RegisterRel(m, n, t0, t1, pruned[n := t1])
  {
  }

  /** The relation leaves open exactly when, between its two times, each entry is examined. */
  lemma RegisterExamines(m: map<Nonce, nat>, n: Nonce, t0: nat, t1: nat, m': map<Nonce, nat>)
    requires t0 <= t1 && n in m' && m'[n] == t1
    ensures RegisterRel(m, n, t0, t1, m') <==> exists at :: ExaminedAt(m, n, t0, t1, at, m')
  {
    if RegisterRel(m, n, t0, t1, m') {
      var at := map k | k in m :: if k in m' then t0 else t1;
      assert ExaminedAt(m, n, t0, t1, at, m');
    }
  }

  lemma RegisterRefines(m: map<Nonce, nat>, h: History, n: Nonce, t0: nat, t1: nat, m': map<Nonce, nat>)
    requires Refines(m, h, t0) && RegisterRel(m, n, t0, t1, m')
    ensures Refines(m', h + [Registered(n, t1)], t1)
  {
    var h' := h + [Registered(n, t1)];
    assert h'[..|h|] == h;
    assert forall k :: Outstanding(h', k) == if k == n then Some(t1) else Outstanding(h, k);
  }

  lemma ConsumeRefines(m: map<Nonce, nat>, h: History, n: Nonce, t0: nat, t: nat, m': map<Nonce, nat>, ok: bool)
    requires Refines(m, h, t0) && t0 <= t && ConsumeRel(m, n, t, m', ok)
    ensures Refines(m', h + [Consumed(n, t)], t)
    ensures ok <==> Live(h, n, t)
  {
    var h' := h + [Consumed(n, t)];
    assert h'[..|h|] == h;
    assert forall k :: Outstanding(h', k) == if k == n then None else Outstanding(h, k);
  }

  // ----- the store stays small

  /** How many registrations of the history happened after `cutoff`. */
  function RegistrationsAfter(h: History, cutoff: int): nat
  {
    if h == [] then 0
    else
      var last := h[|h| - 1];
      RegistrationsAfter(h[..|h| - 1], cutoff) + if last.Registered? && last.at > cutoff then 1 else 0
  }

  lemma {:induction false} OutstandingCount(h: History, cutoff: int, live: set<Nonce>)
    requires forall n :: n in live ==> Outstanding(h, n).Some? && Outstanding(h, n).value > cutoff
    ensures |live| <= RegistrationsAfter(h, cutoff)
  {
    if h == [] {
      assert live == {};
    } else {
      var last := h[|h| - 1];
      var rest := live - {last.nonce};
      OutstandingCount(h[..|h| - 1], cutoff, rest);
      if last.nonce in live {
        assert |live| == |rest| + 1;
      } else {
        assert rest == live;
      }
    }
  }

  /** At most as many entries as registrations in the window before time `t`. */
  predicate Bounded(m: map<Nonce, nat>, h: History, t: nat)
  {
    |m| <= RegistrationsAfter(h, t - WINDOW_MS)
  }

  /** Right after a registration every entry kept was inside its window when pruning began, and there
      are at most as many as registrations in that window. */
  lemma RegisterBounds(m: map<Nonce, nat>, h: History, n: Nonce, t0: nat, t1: nat, m': map<Nonce, nat>)
    requires Refines(m, h, t0) && RegisterRel(m, n, t0, t1, m')
    ensures forall k :: k in m' ==> t0 - m'[k] < WINDOW_MS
    ensures Bounded(m', h + [Registered(n, t1)], t0)
  {
    RegisterRefines(m, h, n, t0, t1, m');
    OutstandingCount(h + [Registered(n, t1)], t0 - WINDOW_MS, m'.Keys);
    assert |m'| == |m'.Keys|;
  }

  /** Pruning and then inserting at time `t1` is a registration. */
  lemma Registers(m: map<Nonce, nat>, h: History, n: Nonce, t0: nat, t: nat, pruned: map<Nonce, nat>, t1: nat)
    requires Refines(m, h, t0) && PruneRel(m, t0, t, pruned) && t0 <= t <= t1
    ensures RegisterRel(m, n, t0, t1, pruned[n := t1])
    ensures Refines(pruned[n := t1], h + [Registered(n, t1)], t1)
    ensures Bounded(pruned[n := t1], h + [Registered(n, t1)], t0)
  {
    InsertPruned(m, n, t0, t, pruned, t1);
    RegisterRefines(m, h, n, t0, t1, pruned[n := t1]);
    RegisterBounds(m, h, n, t0, t1, pruned[n := t1]);
  }

  // ----- the store itself

  class NonceStore {
    var inner: map<Nonce, nat>
    ghost var history: History

    constructor ()
      ensures inner == map[] && history == []
    {
      inner := map[];
      history := [];
    }

    ghost predicate Valid(clock: Clock)
      reads this, clock
    {
      Refines(inner, history, clock.now)
    }

    /** Examine the entries one by one, and drop those whose window has passed by then. */
    method Prune(clock: Clock)
      modifies this`inner, clock
      ensures clock.now >= old(clock.now)
      ensures PruneRel(old(inner), old(clock.now), clock.now, inner)
    {
      var unseen := inner.Keys;
      while unseen != {}
        invariant clock.now >= old(clock.now)
        invariant unseen <= inner.Keys <= old(inner).Keys
        invariant forall k :: k in inner ==> inner[k] == old(inner)[k]
        invariant forall k :: k in inner && k !in unseen ==> old(clock.now) - inner[k] < WINDOW_MS
        invariant forall k :: k in old(inner) && k !in inner ==> clock.now - old(inner)[k] >= WINDOW_MS
        decreases unseen
      {
        var k :| k in unseen;
        unseen := unseen - {k};
        var now := clock.Read();
        if !(now - inner[k] < WINDOW_MS) {
          inner := inner - {k};
        }
      }
    }

    /** Prune, then insert `nonce`. */
    method Register(nonce: Nonce, clock: Clock)
      requires Valid(clock)
      modifies this, clock
      ensures Valid(clock)
      ensures RegisterRel(old(inner), nonce, old(clock.now), clock.now, inner)
      ensures history == old(history) + [Registered(nonce, clock.now)]
      ensures Bounded(inner, history, old(clock.now))
      // in milliseconds: nothing stays that was 30 seconds old at the start, nothing younger goes
      ensures forall k :: k in inner && k != nonce ==> old(clock.now) - inner[k] < 30_000
      ensures forall k :: k in old(inner) && clock.now - old(inner)[k] < 30_000 ==> k in inner
    {
      Prune(clock);
      ghost var pruned, done := inner, clock.now;
      var now := clock.Read();
      inner := inner[nonce := now];
      history := history + [Registered(nonce, now)];
      Registers(old(inner), old(history), nonce, old(clock.now), done, pruned, now);
    }

    /** Remove `nonce`, and say whether it was registered less than 30 seconds ago. */
    method Consume(nonce: Nonce, clock: Clock) returns (ok: bool)
      requires Valid(clock)
      modifies this, clock
      ensures Valid(clock)
      ensures clock.now >= old(clock.now)
      ensures ConsumeRel(old(inner), nonce, clock.now, inner, ok)
      ensures nonce !in inner
      ensures ok <==> nonce in old(inner) && clock.now - old(inner)[nonce] < 30_000
      ensures history == old(history) + [Consumed(nonce, clock.now)]
      ensures ok <==> Live(old(history), nonce, clock.now)
      ensures |inner| <= |old(inner)|
    {
      var had := nonce in inner;
      var issuedAt := if had then inner[nonce] else 0;
      inner := inner - {nonce};
      var now := clock.Read();
      ok := had && now - issuedAt < WINDOW_MS;
      history := history + [Consumed(nonce, now)];
      ConsumeRefines(old(inner), old(history), nonce, old(clock.now), now, inner, ok);
      if had {
        assert inner.Keys == old(inner).Keys - {nonce};
        assert |old(inner).Keys| == |inner.Keys| + 1;
      } else {
        assert inner == old(inner);
      }
    }
  }
}
