/**
 The timer list of lwIP (timeouts.c) under a wrapping 32-bit millisecond clock.

 The class holds what the C code holds: a list of entries with 32-bit due times. A ghost list of
 entries with unbounded due times and insertion numbers says what the list means, and every
 operation is proved against it, so that the wrap-around comparison never shows in a contract.
 */
module Timeouts {
  import opened Machine

  const SPAN := 0x1_0000_0000
  const HALF := 0x8000_0000
  const LWIP_MAX_TIMEOUT := 0x7FFF_FFFF

  /** The clock value shown at true time `t`. */
  function Stamp(t: nat): U32 { t % SPAN }

  /** TIME_LESS_THAN */
  predicate TimeLessThan(t: U32, compareTo: U32) {
    (t - compareTo) % SPAN > LWIP_MAX_TIMEOUT
  }

  /** Two true times close enough for the comparison of their stamps to mean something. */
  predicate Near(a: nat, b: nat) { a - b < HALF && b - a <= HALF }

  /** Stamps compare like true times for all pairs that are near, across any number of wraps. */
  lemma StampOrder(a: nat, b: nat)
    requires Near(a, b)
    ensures TimeLessThan(Stamp(a), Stamp(b)) <==> a < b
  {
    var d := a - b;
    assert (Stamp(a) - Stamp(b)) % SPAN == d % SPAN by {
      assert Stamp(a) - Stamp(b) == d - SPAN * (a / SPAN - b / SPAN);
    }
  }

  // ---------- Entries, and the list by true time ----------

  /** A handler is a one-shot callback, a NULL pointer, or lwip_cyclic_timer with its interval. */
  datatype Handler = Null | OneShot(id: nat) | Cyclic(id: nat, interval: nat)

  /** struct sys_timeo */
  datatype Timeo = Timeo(time: U32, h: Handler, arg: nat)

  /** An entry by true due time; `order` numbers the insertions. */
  datatype Entry = Entry(due: nat, order: nat, h: Handler, arg: nat)

  function Shown(e: Entry): Timeo { Timeo(Stamp(e.due), e.h, e.arg) }

  /** Earlier due time first; among equal due times, first in first out. */
  predicate Before(a: Entry, b: Entry) {
    a.due < b.due || (a.due == b.due && a.order < b.order)
  }

  ghost predicate Sorted(es: seq<Entry>) {
    forall i, j :: 0 <= i < j < |es| ==> Before(es[i], es[j])
  }

  ghost predicate NumberedBelow(es: seq<Entry>, n: nat) {
    forall i :: 0 <= i < |es| ==> es[i].order < n
  }

  function Insert(es: seq<Entry>, e: Entry): seq<Entry> {
    if es == [] || e.due < es[0].due then [e] + es
    else [es[0]] + Insert(es[1..], e)
  }

  lemma {:induction false} InsertAt(es: seq<Entry>, e: Entry, i: nat)
    requires i <= |es| && forall j :: 0 <= j < i ==> es[j].due <= e.due
    requires i < |es| ==> e.due < es[i].due
    ensures Insert(es, e) == es[..i] + [e] + es[i..]
  {
    if i > 0 {
      InsertAt(es[1..], e, i - 1);
      assert es[1..][..i - 1] == es[1..i] && es[1..][i - 1..] == es[i..];
      assert [es[0]] + es[1..i] == es[..i];
    }
  }

  lemma {:induction false} InsertMembers(es: seq<Entry>, e: Entry)
    ensures multiset(Insert(es, e)) == multiset(es) + multiset{e}
  {
    if es != [] && es[0].due <= e.due {
      InsertMembers(es[1..], e);
      assert es == [es[0]] + es[1..];
    }
  }

  /** Inserting the newest entry keeps the list sorted, ties behind the entries already there. */
  lemma {:induction false} InsertSorted(es: seq<Entry>, e: Entry)
    requires Sorted(es) && NumberedBelow(es, e.order)
    ensures Sorted(Insert(es, e)) && NumberedBelow(Insert(es, e), e.order + 1)
  {
    if es != [] && es[0].due <= e.due {
      InsertSorted(es[1..], e);
      InsertMembers(es[1..], e);
      var rest := Insert(es[1..], e);
      assert Insert(es, e) == [es[0]] + rest;
      forall j | 0 <= j < |rest| ensures Before(es[0], rest[j]) {
        assert rest[j] in multiset(rest);
        if rest[j] != e {
          assert rest[j] in es[1..];
        }
      }
    }
  }

  /** The position of the first entry with this handler and argument, or the length. */
  function Find(es: seq<Entry>, h: Handler, arg: nat): (i: nat)
    ensures i <= |es| && forall j :: 0 <= j < i ==> !(es[j].h == h && es[j].arg == arg)
    ensures i < |es| ==> es[i].h == h && es[i].arg == arg
  {
    if es == [] || (es[0].h == h && es[0].arg == arg) then 0
    else 1 + Find(es[1..], h, arg)
  }

  function Without(es: seq<Entry>, i: nat): seq<Entry> {
    if i < |es| then es[..i] + es[i + 1..] else es
  }

  /** All entries of a sorted list moved so that the first is due at `now`. */
  function Rebased(es: seq<Entry>, now: nat): seq<Entry> {
    seq(|es|, i requires 0 <= i < |es| => Moved(es[i], es[0].due, now))
  }

  function Moved(e: Entry, first: nat, now: nat): Entry {
    e.(due := (if e.due >= first then e.due - first else 0) + now)
  }

  lemma RebasedKeeps(es: seq<Entry>, now: nat, count: nat)
    requires Sorted(es) && NumberedBelow(es, count)
    ensures Sorted(Rebased(es, now)) && NumberedBelow(Rebased(es, now), count)
    ensures forall i :: 0 <= i < |es| ==> es[0].due <= es[i].due
  {
    forall i | 0 <= i < |es| ensures es[0].due <= es[i].due { assert i > 0 ==> Before(es[0], es[i]); }
    forall i, j | 0 <= i < j < |es| ensures Before(Moved(es[i], es[0].due, now), Moved(es[j], es[0].due, now)) {
      assert Before(es[i], es[j]);
    }
  }

  lemma WithoutMembers(es: seq<Entry>, i: nat)
    requires i < |es|
    ensures multiset(Without(es, i)) == multiset(es) - multiset{es[i]}
  {
    assert es == es[..i] + [es[i]] + es[i + 1..];
  }

  lemma WithoutKeeps(es: seq<Entry>, i: nat, count: nat)
    requires Sorted(es) && NumberedBelow(es, count)
    ensures Sorted(Without(es, i)) && NumberedBelow(Without(es, i), count) && (i >= |es| ==> Without(es, i) == es)
  {
  }

  lemma FindIs(es: seq<Entry>, h: Handler, arg: nat, i: nat)
    requires i <= |es| && forall j :: 0 <= j < i ==> !(es[j].h == h && es[j].arg == arg)
    requires i < |es| ==> es[i].h == h && es[i].arg == arg
    ensures Find(es, h, arg) == i
  {
  }

  // ---------- Counting what one sys_check_timeouts call can fire ----------

  /** Which entries a count is about: all of them, or those with one handler and argument. */
  datatype Key = Any | Key(h: Handler, arg: nat)

  predicate Matches(e: Entry, key: Key) {
    match key
    case Any => true
    case Key(h, arg) => e.h == h && e.arg == arg
  }

  function Count(es: seq<Entry>, key: Key): nat {
    if es == [] then 0 else (if Matches(es[0], key) then 1 else 0) + Count(es[1..], key)
  }

  /** How often an entry can still fire in a call that started at `now`, rescheduling included. */
  function Shots(e: Entry, now: nat): nat {
    if e.due < now then 2 else if e.due == now then 1 else 0
  }

  function Fuel(es: seq<Entry>, now: nat, key: Key): nat {
    if es == [] then 0 else (if Matches(es[0], key) then Shots(es[0], now) else 0) + Fuel(es[1..], now, key)
  }

  /** How many entries are due at `now`. */
  function DueCount(es: seq<Entry>, now: nat, key: Key): nat {
    if es == [] then 0 else (if Matches(es[0], key) && es[0].due <= now then 1 else 0) + DueCount(es[1..], now, key)
  }

  lemma {:induction false} NoneDue(es: seq<Entry>, now: nat, key: Key)
    requires forall i :: 0 <= i < |es| ==> es[i].due > now
    ensures DueCount(es, now, key) == Fuel(es, now, key) == 0
  {
    if es != [] { NoneDue(es[1..], now, key); }
  }

  function OneShots(es: seq<Entry>): seq<Entry> {
    if es == [] then [] else (if es[0].h.Cyclic? then [] else [es[0]]) + OneShots(es[1..])
  }

  lemma {:induction false} FuelBound(es: seq<Entry>, now: nat, key: Key)
    ensures Fuel(es, now, key) <= 2 * DueCount(es, now, key) <= 2 * Count(es, key) && Count(es, key) <= |es|
  {
    if es != [] { FuelBound(es[1..], now, key); }
  }

  lemma {:induction false} InsertCounts(es: seq<Entry>, e: Entry, now: nat, key: Key)
    ensures Fuel(Insert(es, e), now, key) == Fuel(es, now, key) + Fuel([e], now, key)
    ensures Count(Insert(es, e), key) == Count(es, key) + Count([e], key)
    ensures DueCount(Insert(es, e), now, key) == DueCount(es, now, key) + DueCount([e], now, key)
  {
    if es != [] && es[0].due <= e.due {
      InsertCounts(es[1..], e, now, key);
    } else {
      assert ([e] + es)[1..] == es;
    }
  }

  lemma {:induction false} InsertCyclic(es: seq<Entry>, e: Entry)
    requires e.h.Cyclic?
    ensures OneShots(Insert(es, e)) == OneShots(es)
  {
    if es != [] && es[0].due <= e.due {
      InsertCyclic(es[1..], e);
    } else {
      assert ([e] + es)[1..] == es;
    }
  }

  lemma {:induction false} OneShotsConcat(a: seq<Entry>, b: seq<Entry>)
    ensures OneShots(a + b) == OneShots(a) + OneShots(b)
  {
    if a == [] {
      assert a + b == b;
    } else {
      assert (a + b)[1..] == a[1..] + b;
      OneShotsConcat(a[1..], b);
    }
  }

  lemma {:induction false} CountConcat(a: seq<Entry>, b: seq<Entry>, key: Key)
    ensures Count(a + b, key) == Count(a, key) + Count(b, key)
  {
    if a == [] {
      assert a + b == b;
    } else {
      assert (a + b)[1..] == a[1..] + b;
      CountConcat(a[1..], b, key);
    }
  }

  /** The pending list after its head has fired; a cyclic head comes back as `next`. */
  function AfterFiring(es: seq<Entry>, next: Entry): seq<Entry>
    requires es != []
  {
    if es[0].h.Cyclic? then Insert(es[1..], next) else es[1..]
  }

  /**
   A cyclic timer that has fired comes back as `next`: in its rhythm, unless the clock reading is past
   that, and then an interval after the reading.
   */
  predicate ComesBack(e: Entry, next: Entry, reading: nat) {
    && e.h.Cyclic? && next.h == e.h && next.arg == e.arg
    && next.due == if reading <= e.due + e.h.interval then e.due + e.h.interval else reading + e.h.interval
  }

  /** An entry is one of those before the call, or one that has fired in it has come back as it. */
  ghost predicate Stems(es0: seq<Entry>, fired: seq<Entry>, e: Entry, clock: nat -> nat, from: nat, to: nat) {
    e in es0 || exists p, j: nat :: p in fired && from <= j < to && ComesBack(p, e, clock(j))
  }

  /** Every entry of a call stems from those before it, over the readings `from` to `to`. */
  ghost predicate Lineage(es0: seq<Entry>, fired: seq<Entry>, es: seq<Entry>, clock: nat -> nat, from: nat, to: nat) {
    && (forall e :: e in fired ==> Stems(es0, fired, e, clock, from, to))
    && (forall e :: e in es ==> Stems(es0, fired, e, clock, from, to))
  }

  lemma LineageStarts(es: seq<Entry>, clock: nat -> nat, from: nat)
    ensures Lineage(es, [], es, clock, from, from)
  {
  }

  lemma LineageKept(es0: seq<Entry>, fired: seq<Entry>, es: seq<Entry>, next: Entry,
                    clock: nat -> nat, from: nat, to: nat, to': nat)
    requires Lineage(es0, fired, es, clock, from, to) && es != [] && from <= to
    requires to' == if es[0].h.Cyclic? then to + 1 else to
    requires es[0].h.Cyclic? ==> ComesBack(es[0], next, clock(to))
    ensures Lineage(es0, fired + [es[0]], AfterFiring(es, next), clock, from, to')
  {
    hide ComesBack;
    var fired', es' := fired + [es[0]], AfterFiring(es, next);
    forall e | e in fired' || e in es' ensures Stems(es0, fired', e, clock, from, to') {
      if e in fired || e in es {
        StemsOn(es0, fired, es[0], e, clock, from, to, to');
      } else {
        InsertMembers(es[1..], next);
        assert e in multiset(es');
        assert es[0] in fired' && from <= to < to' && ComesBack(es[0], e, clock(to));
      }
    }
  }

  lemma StemsOn(es0: seq<Entry>, fired: seq<Entry>, head: Entry, e: Entry, clock: nat -> nat, from: nat, to: nat,
                to': nat)
    requires Stems(es0, fired, e, clock, from, to) && to <= to'
    ensures Stems(es0, fired + [head], e, clock, from, to')
  {
    hide ComesBack;
    if e !in es0 {
      var p, j: nat :| p in fired && from <= j < to && ComesBack(p, e, clock(j));
      assert p in fired + [head];
    }
  }

  /**
   The rhythm: in a call in which the clock stays within an interval of every cyclic timer pending at
   its start, all due times of a timer are apart by multiples of its interval.
   */
  lemma {:induction false} InRhythm(es0: seq<Entry>, fired: seq<Entry>, es: seq<Entry>, e: Entry,
                                    clock: nat -> nat, from: nat, to: nat)
    returns (origin: Entry, rounds: nat)
    requires Lineage(es0, fired, es, clock, from, to) && (e in fired || e in es) && e.h.Cyclic? && e.h.interval > 0
    requires forall i: nat, j: nat :: i <= j ==> clock(i) <= clock(j)
    requires forall o :: o in es0 && o.h.Cyclic? ==> clock(to) <= o.due + o.h.interval
    ensures origin in es0 && origin.h == e.h && origin.arg == e.arg && e.due == origin.due + rounds * e.h.interval
    decreases e.due
  {
    hide Lineage;
    if e in es0 {
      origin, rounds := e, 0;
    } else {
      var p, j := StemOf(es0, fired, es, e, clock, from, to);
      origin, rounds := InRhythm(es0, fired, es, p, clock, from, to);
      OneRound(origin.due, rounds, e.h.interval);
      rounds := rounds + 1;
    }
  }

  lemma StemOf(es0: seq<Entry>, fired: seq<Entry>, es: seq<Entry>, e: Entry, clock: nat -> nat, from: nat, to: nat)
    returns (p: Entry, j: nat)
    requires Lineage(es0, fired, es, clock, from, to) && (e in fired || e in es) && e !in es0
    ensures p in fired && from <= j < to && ComesBack(p, e, clock(j))
  {
    hide ComesBack;
    assert Stems(es0, fired, e, clock, from, to);
    p, j :| p in fired && from <= j < to && ComesBack(p, e, clock(j));
  }

  lemma OneRound(due: nat, rounds: nat, interval: nat)
    ensures due + rounds * interval + interval == due + (rounds + 1) * interval
    ensures due + rounds * interval >= due
  {
  }

  /** What rescheduling promises: the same timer, not before `now`, and after it from `now` on. */
  predicate Reschedules(e: Entry, next: Entry, now: nat) {
    next.h == e.h && next.arg == e.arg && next.due >= now && (e.due == now ==> next.due > now)
  }

  /** Firing uses up a shot of its key, and a cyclic timer stays pending. */
  lemma FireCounts(fired: seq<Entry>, es: seq<Entry>, next: Entry, now: nat, key: Key)
    requires es != [] && es[0].due <= now && (es[0].h.Cyclic? ==> Reschedules(es[0], next, now))
    ensures Count(fired + [es[0]], key) + Fuel(AfterFiring(es, next), now, key) <=
            Count(fired, key) + Fuel(es, now, key)
    ensures Count(fired + [es[0]], key) + DueCount(AfterFiring(es, next), now, key) >=
            Count(fired, key) + DueCount(es, now, key)
    ensures key.Any? ==> Fuel(AfterFiring(es, next), now, key) < Fuel(es, now, key)
    ensures key.Key? && key.h.Cyclic? ==> Count(AfterFiring(es, next), key) == Count(es, key)
  {
    CountConcat(fired, [es[0]], key);
    InsertCounts(es[1..], next, now, key);
  }

  /** One round of sys_check_timeouts keeps the order of what fired and is pending, and the one-shots. */
  lemma FireOrder(fired: seq<Entry>, es: seq<Entry>, next: Entry, now: nat)
    requires es != [] && es[0].due <= now && Sorted(fired + es)
    requires forall i :: 0 <= i < |fired| ==> fired[i].due <= now
    requires es[0].h.Cyclic? ==>
               Reschedules(es[0], next, now) && NumberedBelow(fired, next.order) && NumberedBelow(es, next.order)
    ensures var es' := AfterFiring(es, next);
            Sorted(fired + [es[0]] + es') && OneShots(fired + [es[0]] + es') == OneShots(fired + es)
  {
    var e, rest, es' := es[0], es[1..], AfterFiring(es, next);
    assert fired + [e] + rest == fired + es;
    OneShotsConcat(fired + [e], rest);
    OneShotsConcat(fired + [e], es');
    if e.h.Cyclic? {
      InsertCyclic(rest, next);
      FireSorted(fired + [e], rest, next);
    }
  }

  lemma FireSorted(fired: seq<Entry>, rest: seq<Entry>, next: Entry)
    requires Sorted(fired + rest) && NumberedBelow(fired, next.order) && NumberedBelow(rest, next.order)
    requires forall i :: 0 <= i < |fired| ==> fired[i].due <= next.due
    ensures Sorted(fired + Insert(rest, next))
  {
    var all, es' := fired + rest, Insert(rest, next);
    assert Sorted(rest) by {
      forall i, j | 0 <= i < j < |rest| ensures Before(rest[i], rest[j]) {
        assert Before(all[|fired| + i], all[|fired| + j]);
      }
    }
    InsertSorted(rest, next);
    InsertMembers(rest, next);
    forall i, j | 0 <= i < |fired| && 0 <= j < |es'| ensures Before(fired[i], es'[j]) {
      assert es'[j] in multiset(es');
      if es'[j] != next {
        assert es'[j] in rest;
        var k :| 0 <= k < |rest| && rest[k] == es'[j];
        assert Before(all[i], all[|fired| + k]);
      }
    }
    forall i, j | 0 <= i < j < |fired| ensures Before(fired[i], fired[j]) {
      assert Before(all[i], all[j]);
    }
  }

  lemma FuelAhead(es: seq<Entry>, now: nat)
    requires es != [] && es[0].due <= now
    ensures Fuel(es, now, Any) > 0
  {
  }

  /**
   What a call that started with `es0` at `now` keeps while `fired` grows: one order for what fired
   and what is pending, the one-shots, every entry, a shot used up per firing, one at least for each
   entry due, and every cyclic timer pending.
   */
  ghost predicate Conserved(es0: seq<Entry>, now: nat, fired: seq<Entry>, es: seq<Entry>) {
    && Sorted(fired + es)
    && (forall i :: 0 <= i < |fired| ==> fired[i].due <= now)
    && OneShots(fired + es) == OneShots(es0)
    && ((forall i :: 0 <= i < |es0| ==> !es0[i].h.Cyclic?) ==> fired + es == es0)
    && (forall i :: 0 <= i < |es0| ==> es0[i] in fired || es0[i] in es)
    && (forall h: Handler, arg: nat :: ConservedCounts(es0, now, fired, es, Key(h, arg)))
  }

  predicate ConservedCounts(es0: seq<Entry>, now: nat, fired: seq<Entry>, es: seq<Entry>, key: Key) {
    && Count(fired, key) + Fuel(es, now, key) <= Fuel(es0, now, key)
    && Count(fired, key) + DueCount(es, now, key) >= DueCount(es0, now, key)
    && (key.Key? && key.h.Cyclic? ==> Count(es, key) == Count(es0, key))
  }

  lemma AfterFiringKeeps(es: seq<Entry>, next: Entry)
    requires es != []
    ensures forall e :: e in es ==> e == es[0] || e in AfterFiring(es, next)
  {
    InsertMembers(es[1..], next);
    forall e | e in es && e != es[0] ensures e in AfterFiring(es, next) {
      assert e in es[1..] && e in multiset(es[1..]) + multiset{next};
      assert es[0].h.Cyclic? ==> e in multiset(Insert(es[1..], next));
    }
  }

  lemma ConservedAtStart(es: seq<Entry>, now: nat)
    requires Sorted(es)
    ensures Conserved(es, now, [], es)
  {
    assert [] + es == es;
  }

  lemma FireKeeps(es0: seq<Entry>, now: nat, fired: seq<Entry>, es: seq<Entry>, next: Entry)
    requires Conserved(es0, now, fired, es) && es != [] && es[0].due <= now
    requires es[0].h.Cyclic? ==>
               Reschedules(es[0], next, now) && NumberedBelow(fired, next.order) && NumberedBelow(es, next.order)
    ensures Conserved(es0, now, fired + [es[0]], AfterFiring(es, next))
    ensures Fuel(AfterFiring(es, next), now, Any) < Fuel(es, now, Any)
  {
    FireOrder(fired, es, next, now);
    FireCounts(fired, es, next, now, Any);
    forall h: Handler, arg: nat
      ensures ConservedCounts(es0, now, fired + [es[0]], AfterFiring(es, next), Key(h, arg))
    {
      assert ConservedCounts(es0, now, fired, es, Key(h, arg));
      FireCounts(fired, es, next, now, Key(h, arg));
    }
    AfterFiringKeeps(es, next);
    if forall i :: 0 <= i < |es0| ==> !es0[i].h.Cyclic? {
      assert es0[|fired|] == es[0];
      assert fired + [es[0]] + es[1..] == fired + es;
    }
  }

  lemma ConservedAtEnd(es0: seq<Entry>, now: nat, fired: seq<Entry>, es: seq<Entry>)
    requires Conserved(es0, now, fired, es) && (es == [] || es[0].due > now) && Sorted(es)
    ensures Sorted(fired + es) && OneShots(fired + es) == OneShots(es0)
    ensures forall i :: 0 <= i < |fired| ==> fired[i].due <= now
    ensures forall i :: 0 <= i < |es| ==> es[i].due > now
    ensures (forall i :: 0 <= i < |es0| ==> !es0[i].h.Cyclic?) ==> fired + es == es0
    ensures forall i :: 0 <= i < |es0| ==> if es0[i].due <= now then es0[i] in fired else es0[i] in es
    ensures forall h: Handler, arg: nat :: FiringsBounded(es0, now, fired, Key(h, arg))
    ensures forall h: Handler, arg: nat :: h.Cyclic? ==> Count(es, Key(h, arg)) == Count(es0, Key(h, arg))
  {
    forall h: Handler, arg: nat
      ensures FiringsBounded(es0, now, fired, Key(h, arg))
      ensures h.Cyclic? ==> Count(es, Key(h, arg)) == Count(es0, Key(h, arg))
    {
      assert ConservedCounts(es0, now, fired, es, Key(h, arg));
      FuelBound(es0, now, Key(h, arg));
      NoneDue(es, now, Key(h, arg));
    }
  }

  /**
   How often one call fires a handler with its argument: at least once for each entry due when the call
   started, at most twice for one due before that and once for one due just then, and never for others.
   */
  predicate FiringsBounded(es0: seq<Entry>, now: nat, fired: seq<Entry>, key: Key) {
    DueCount(es0, now, key) <= Count(fired, key) <= Fuel(es0, now, key) <= 2 * DueCount(es0, now, key)
  }

  // ---------- The list ----------

  /** The timeout list, its element pool, and the readings `clock(0), clock(1), ..` of sys_now. */
  class TimerList {
    const capacity: nat
    const clock: nat -> nat
    var list: seq<Timeo>
    var currentDue: U32
    var tick: nat
    ghost var entries: seq<Entry>
    ghost var count: nat

    /** The C list shows the entries, sorted with ties in insertion order; the clock never goes back. */
    ghost predicate Valid()
      reads this
    {
      && |list| == |entries| <= capacity
      && (forall i :: 0 <= i < |list| ==> list[i] == Shown(entries[i]))
      && Sorted(entries) && NumberedBelow(entries, count)
      && (forall i: nat, j: nat :: i <= j ==> clock(i) <= clock(j))
    }

    constructor (capacity: nat, clock: nat -> nat)
      requires forall i: nat, j: nat :: i <= j ==> clock(i) <= clock(j)
      ensures Valid() && entries == [] && tick == 0 && this.capacity == capacity && this.clock == clock
    {
      this.capacity, this.clock := capacity, clock;
      list, currentDue, tick, entries, count := [], 0, 0, [], 0;
    }

    ghost predicate AllNear(t: nat)
      reads this
    {
      forall i :: 0 <= i < |entries| ==> Near(t, entries[i].due) && Near(entries[i].due, t)
    }

    method SysNow() returns (now: U32)
      requires Valid()
      modifies this`tick
      ensures Valid() && now == Stamp(clock(old(tick))) && tick == old(tick) + 1
    {
      now := Stamp(clock(tick));
      tick := tick + 1;
    }

    /** sys_timeout_abs: a stable insertion by true time; without a free element it halts. */
    method TimeoutAbs(absTime: U32, h: Handler, arg: nat, ghost t: nat) returns (r: Outcome)
      requires Valid() && absTime == Stamp(t) && AllNear(t)
      modifies this`list, this`entries, this`count
      ensures Valid() && (r.Halted? <==> old(|list|) == capacity)
      ensures count == if r.Returned? then old(count) + 1 else old(count)
      ensures entries == if r.Returned? then Insert(old(entries), Entry(t, old(count), h, arg)) else old(entries)
      ensures r.Returned? ==> multiset(entries) == multiset(old(entries)) + multiset{Entry(t, old(count), h, arg)}
    {
      hide Stamp, TimeLessThan, Insert, Sorted;
      ghost var e := Entry(t, count, h, arg);
      if |list| == capacity {
        return Halted;
      }
      var timeout := Timeo(absTime, h, arg);
      var i := 0;
      if list != [] {
        StampOrder(t, entries[0].due);
        if !TimeLessThan(timeout.time, list[0].time) {
          i := 1;
          while i < |list| && !TimeLessThan(timeout.time, list[i].time)
            invariant 1 <= i <= |list| && list == old(list) && entries == old(entries) && count == old(count)
            invariant forall j :: 0 <= j < i ==> entries[j].due <= t
          {
            StampOrder(t, entries[i].due);
            i := i + 1;
          }
          if i < |list| {
            StampOrder(t, entries[i].due);
          }
        }
      }
      InsertAt(entries, e, i);
      InsertMembers(entries, e);
      InsertSorted(entries, e);
      list := list[..i] + [timeout] + list[i..];
      entries, count := entries[..i] + [e] + entries[i..], count + 1;
      r := Returned;
    }

    /** sys_timeout: halts when the time is too long or no element is free. */
    method Timeout(msecs: U32, h: Handler, arg: nat) returns (r: Outcome)
      requires Valid() && (msecs <= 0xFFFF_FFFF / 4 ==> AllNear(clock(tick) + msecs))
      modifies this`list, this`entries, this`count, this`tick
      ensures Valid()
      ensures r.Halted? <==> msecs > 0xFFFF_FFFF / 4 || old(|list|) == capacity
      ensures r.Returned? ==> tick == old(tick) + 1 && count == old(count) + 1
      ensures entries == if r.Returned? then Insert(old(entries), Entry(clock(old(tick)) + msecs, old(count), h, arg))
                         else old(entries)
      ensures r.Returned? ==>
                multiset(entries) ==
                multiset(old(entries)) + multiset{Entry(clock(old(tick)) + msecs, old(count), h, arg)}
    {
      hide Stamp;
      if msecs > 0xFFFF_FFFF / 4 {
        return Halted;
      }
      var now := SysNow();
      ghost var t := clock(tick - 1) + msecs;
      StampAdd(clock(tick - 1), msecs);
      r := TimeoutAbs((now + msecs) % SPAN, h, arg, t);
    }

    /** sys_untimeout: only the first matching entry goes. */
    method Untimeout(h: Handler, arg: nat)
      requires Valid()
      modifies this`list, this`entries
      ensures Valid() && entries == Without(old(entries), Find(old(entries), h, arg))
      ensures var i, es := Find(old(entries), h, arg), old(entries);
              if i == |es| then entries == es
              else entries == es[..i] + es[i + 1..] && multiset(entries) == multiset(es) - multiset{es[i]}
    {
      hide Find, Stamp, Sorted;
      var i := 0;
      while i < |list| && !(list[i].h == h && list[i].arg == arg)
        invariant 0 <= i <= |list| && list == old(list) && entries == old(entries)
        invariant forall j :: 0 <= j < i ==> !(entries[j].h == h && entries[j].arg == arg)
      {
        i := i + 1;
      }
      FindIs(entries, h, arg, i);
      if i < |list| {
        WithoutMembers(entries, i);
        WithoutKeeps(entries, i, count);
        list := list[..i] + list[i + 1..];
        entries := entries[..i] + entries[i + 1..];
      }
    }

    /** sys_restart_timeouts: every due time moves by the same true amount. */
    method RestartTimeouts()
      requires Valid()
      modifies this`list, this`entries, this`tick
      ensures Valid() && tick == if old(entries) == [] then old(tick) else old(tick) + 1
      ensures entries == Rebased(old(entries), clock(old(tick))) && |entries| == |old(entries)|
      ensures entries != [] ==> entries[0].due == clock(old(tick))
      ensures forall i :: 0 <= i < |entries| ==>
                && entries[i].due - entries[0].due == old(entries)[i].due - old(entries)[0].due
                && entries[i] == old(entries)[i].(due := entries[i].due)
    {
      hide Stamp, Sorted;
      if list == [] {
        return;
      }
      var now := SysNow();
      var base := list[0].time;
      ghost var t, first := clock(tick - 1), entries[0].due;
      var i := 0;
      RebasedKeeps(entries, t, count);
      while i < |list|
        invariant 0 <= i <= |list| == |entries|
        invariant forall j :: i <= j < |list| ==> list[j] == Shown(entries[j])
        invariant forall j :: 0 <= j < i ==> list[j] == Shown(Moved(entries[j], first, t))
        modifies this`list
      {
        RebaseStamp(entries[i].due, first, t);
        list := list[i := list[i].(time := ((list[i].time - base) % SPAN + now) % SPAN)];
        i := i + 1;
      }
      entries := Rebased(entries, t);
    }

    /**
     lwip_cyclic_timer, after its user handler has run and the clock has moved on: the next due time is
     in the rhythm of the last, unless the reading is past that, and then an interval after the reading.
     */
    method CyclicTimer(h: Handler, arg: nat, ghost due: nat) returns (ghost next: Entry)
      requires Valid() && h.Cyclic? && currentDue == Stamp(due) && |list| < capacity
      requires Near(due + h.interval, clock(tick))
      requires if clock(tick) <= due + h.interval then AllNear(due + h.interval) else AllNear(clock(tick) + h.interval)
      modifies this`list, this`entries, this`count, this`tick
      ensures Valid() && tick == old(tick) + 1 && count == old(count) + 1
      ensures next.order == old(count) && next.h == h && next.arg == arg && entries == Insert(old(entries), next)
      ensures clock(old(tick)) <= due + h.interval ==> next.due == due + h.interval
      ensures clock(old(tick)) > due + h.interval ==> next.due == clock(old(tick)) + h.interval
    {
      hide Stamp, TimeLessThan, Insert;
      var now := SysNow();
      ghost var t := clock(tick - 1);
      var time := (currentDue + h.interval) % SPAN;
      StampAdd(due, h.interval);
      StampAdd(t, h.interval);
      StampOrder(due + h.interval, t);
      if TimeLessThan(time, now) {
        next := Entry(t + h.interval, count, h, arg);
        var _ := TimeoutAbs((now + h.interval) % SPAN, h, arg, t + h.interval);
      } else {
        next := Entry(due + h.interval, count, h, arg);
        var _ := TimeoutAbs(time, h, arg, due + h.interval);
      }
    }

    /** One expired entry: unlink it, remember its due time and run its handler. */
    method FireHead(ghost lo: nat, ghost now: nat, ghost latest: nat) returns (ghost next: Entry)
      requires Valid() && entries != [] && entries[0].due <= now && Inside(entries, lo, latest)
      requires now <= clock(tick) <= latest
      modifies this`list, this`entries, this`count, this`tick, this`currentDue
      ensures Valid() && Inside(entries, lo, latest) && count >= old(count)
      ensures old(entries)[0].h.Cyclic? ==> ComesBack(old(entries)[0], next, clock(old(tick)))
      ensures old(entries)[0].h.Cyclic? ==> Reschedules(old(entries)[0], next, now) && next.order == old(count)
      ensures entries == AfterFiring(old(entries), next)
      ensures tick == if old(entries)[0].h.Cyclic? then old(tick) + 1 else old(tick)
    {
      var head := list[0];
      ghost var e := entries[0];
      list, entries := list[1..], entries[1..];
      currentDue := head.time;
      next := e;
      if head.h.Cyclic? {
        ghost var rest := entries;
        next := CyclicTimer(head.h, head.arg, e.due);
        InsideInsert(rest, next, lo, latest);
      }
    }

    /**
     sys_check_timeouts, with `lo` such that everything pending, and every clock reading the call
     can make plus any cyclic interval, lies in the half range of the clock that starts at `lo`.
     */
    method CheckTimeouts(ghost lo: nat) returns (ghost fired: seq<Entry>)
      requires Valid() && lo <= clock(tick) < lo + HALF && Inside(entries, lo, clock(tick + 2 * |entries|))
      modifies this`list, this`entries, this`count, this`tick, this`currentDue
      ensures Valid() && Sorted(fired + entries)
      ensures forall i :: 0 <= i < |fired| ==> fired[i].due <= clock(old(tick))
      ensures forall i :: 0 <= i < |entries| ==> entries[i].due > clock(old(tick))
      ensures OneShots(fired + entries) == OneShots(old(entries))
      ensures (forall i :: 0 <= i < |old(entries)| ==> !old(entries)[i].h.Cyclic?) ==>
                fired + entries == old(entries)
      ensures forall i :: 0 <= i < |old(entries)| ==>
                if old(entries)[i].due <= clock(old(tick)) then old(entries)[i] in fired else old(entries)[i] in entries
      ensures forall h: Handler, arg: nat :: FiringsBounded(old(entries), clock(old(tick)), fired, Key(h, arg))
      ensures forall h: Handler, arg: nat :: h.Cyclic? ==>
                Count(entries, Key(h, arg)) == Count(old(entries), Key(h, arg))
      ensures tick > old(tick) && Lineage(old(entries), fired, entries, clock, old(tick) + 1, tick)
    {
      hide Conserved, Fuel, Count, DueCount, OneShots, FiringsBounded, Insert, AfterFiring, Sorted, Stamp, TimeLessThan,
           Lineage;
      LineageStarts(entries, clock, tick + 1);
      ghost var n, latest, total := clock(tick), clock(tick + 2 * |entries|), Fuel(entries, clock(tick), Any);
      fired := [];
      ConservedAtStart(entries, n);
      FuelBound(entries, n, Any);
      var now := SysNow();
      while true
        invariant Valid() && NumberedBelow(fired, count)
        invariant Lineage(old(entries), fired, entries, clock, old(tick) + 1, tick)
        invariant Inside(entries, lo, latest) && Conserved(old(entries), n, fired, entries)
        invariant old(tick) < tick && tick + Fuel(entries, n, Any) <= old(tick) + 1 + total
        decreases Fuel(entries, n, Any)
      {
        if list == [] {
          ConservedAtEnd(old(entries), n, fired, entries);
          return;
        }
        ghost var es := entries;
        StampOrder(n, es[0].due);
        if TimeLessThan(now, list[0].time) {
          ConservedAtEnd(old(entries), n, fired, entries);
          return;
        }
        FuelAhead(es, n);
        ghost var t := tick;
        ghost var next := FireHead(lo, n, latest);
        LineageKept(old(entries), fired, es, next, clock, old(tick) + 1, t, tick);
        FireKeeps(old(entries), n, fired, es, next);
        fired := fired + [es[0]];
      }
    }
  }

  // ---------- Runs ----------

  datatype TimerCall = Start(msecs: U32, h: Handler, arg: nat) | Cancel(h: Handler, arg: nat) | Restart

  /** What is pending, how often the clock was read, and how many timeouts were started. */
  datatype TimerState = TimerState(entries: seq<Entry>, tick: nat, count: nat)

  /** sys_timeout halts. */
  predicate Refused(s: TimerState, call: TimerCall, capacity: nat) {
    call.Start? && (call.msecs > 0xFFFF_FFFF / 4 || |s.entries| == capacity)
  }

  /** Entries by true time after a call that returns. */
  function AfterCall(s: TimerState, call: TimerCall, clock: nat -> nat): TimerState {
    match call
    case Start(msecs, h, arg) =>
      TimerState(Insert(s.entries, Entry(clock(s.tick) + msecs, s.count, h, arg)), s.tick + 1, s.count + 1)
    case Cancel(h, arg) => s.(entries := Without(s.entries, Find(s.entries, h, arg)))
    case Restart =>
      if s.entries == [] then s
      else s.(entries := Rebased(s.entries, clock(s.tick)), tick := s.tick + 1)
  }

  /** The same, in terms of what is pending: one entry more, the first match less, or all distances kept. */
  ghost predicate TimerStepped(s: TimerState, call: TimerCall, s': TimerState, clock: nat -> nat) {
    && Sorted(s'.entries)
    && match call
       case Start(msecs, h, arg) =>
         multiset(s'.entries) == multiset(s.entries) + multiset{Entry(clock(s.tick) + msecs, s.count, h, arg)}
       case Cancel(h, arg) =>
         var i := Find(s.entries, h, arg);
         if i == |s.entries| then s'.entries == s.entries
         else multiset(s'.entries) == multiset(s.entries) - multiset{s.entries[i]}
       case Restart =>
         && |s'.entries| == |s.entries| && (s'.entries != [] ==> s'.entries[0].due == clock(s.tick))
         && forall i :: 0 <= i < |s.entries| ==>
              && s'.entries[i].due - s'.entries[0].due == s.entries[i].due - s.entries[0].due
              && s'.entries[i] == s.entries[i].(due := s'.entries[i].due)
  }

  lemma AfterCallStepped(s: TimerState, call: TimerCall, clock: nat -> nat)
    requires Sorted(s.entries) && NumberedBelow(s.entries, s.count)
    ensures TimerStepped(s, call, AfterCall(s, call, clock), clock)
  {
    hide Sorted, Insert, Without, Find;
    match call
    case Start(msecs, h, arg) =>
      var e := Entry(clock(s.tick) + msecs, s.count, h, arg);
      InsertMembers(s.entries, e);
      InsertSorted(s.entries, e);
    case Cancel(h, arg) =>
      var i := Find(s.entries, h, arg);
      WithoutKeeps(s.entries, i, s.count);
      if i < |s.entries| { WithoutMembers(s.entries, i); }
    case Restart =>
      RebasedKeeps(s.entries, clock(s.tick), s.count);
  }

  function AfterCalls(s: TimerState, calls: seq<TimerCall>, clock: nat -> nat): TimerState
    decreases calls
  {
    if calls == [] then s else AfterCalls(AfterCall(s, calls[0], clock), calls[1..], clock)
  }

  lemma {:induction false} CallsSnoc(s: TimerState, calls: seq<TimerCall>, clock: nat -> nat, k: nat)
    requires k < |calls|
    ensures AfterCalls(s, calls[..k + 1], clock) == AfterCall(AfterCalls(s, calls[..k], clock), calls[k], clock)
    decreases k
  {
    hide AfterCall;
    if k == 0 {
      assert calls[..1] == [calls[0]] && [calls[0]][1..] == [];
    } else {
      assert calls[..k + 1][1..] == calls[1..][..k] && calls[..k][1..] == calls[1..][..k - 1];
      CallsSnoc(AfterCall(s, calls[0], clock), calls[1..], clock, k - 1);
    }
  }

  /** The clock's comparison can place the timeout: it falls due within 2^31 of everything pending. */
  ghost predicate Placeable(s: TimerState, call: TimerCall, clock: nat -> nat) {
    call.Start? && call.msecs <= 0xFFFF_FFFF / 4 ==>
      forall i :: 0 <= i < |s.entries| ==> NearBoth(clock(s.tick) + call.msecs, s.entries[i].due)
  }

  predicate NearBoth(a: nat, b: nat) { Near(a, b) && Near(b, a) }

  /**
   Over every run of sys_timeout, sys_untimeout and sys_restart_timeouts, up to the first call that halts,
   the list is the fold of insertion, removal and rebasing on true times, sorted by these with ties in
   order of insertion.
   */
  method RunTimers(timers: TimerList, calls: seq<TimerCall>) returns (r: Outcome, n: nat)
    requires timers.Valid()
    requires var s := TimerState(timers.entries, timers.tick, timers.count);
             forall k :: 0 <= k < |calls| ==> Placeable(AfterCalls(s, calls[..k], timers.clock), calls[k], timers.clock)
    modifies timers
    ensures timers.Valid() && Sorted(timers.entries) && n <= |calls|
    ensures var s := old(TimerState(timers.entries, timers.tick, timers.count));
            && timers.entries == AfterCalls(s, calls[..n], timers.clock).entries
            && (forall k :: 0 <= k < n ==> !Refused(AfterCalls(s, calls[..k], timers.clock), calls[k], timers.capacity))
            && (forall k :: 0 <= k < n ==> SteppedAt(s, calls, k, timers.clock))
            && if r.Returned? then n == |calls|
               else n < |calls| && Refused(AfterCalls(s, calls[..n], timers.clock), calls[n], timers.capacity)
  {
    hide AfterCall, Sorted, Placeable, Refused, TimerStepped;
    ghost var s := TimerState(timers.entries, timers.tick, timers.count);
    r, n := Returned, 0;
    while n < |calls|
      invariant timers.Valid() && n <= |calls| && r.Returned?
      invariant TimerState(timers.entries, timers.tick, timers.count) == AfterCalls(s, calls[..n], timers.clock)
      invariant forall k :: 0 <= k < n ==> !Refused(AfterCalls(s, calls[..k], timers.clock), calls[k], timers.capacity)
      invariant forall k :: 0 <= k < n ==> SteppedAt(s, calls, k, timers.clock)
    {
      r := MakeCall(timers, calls[n]);
      if r.Halted? {
        return;
      }
      CallsSnoc(s, calls, timers.clock, n);
      n := n + 1;
    }
  }

  ghost predicate SteppedAt(s: TimerState, calls: seq<TimerCall>, k: nat, clock: nat -> nat)
    requires k < |calls|
  {
    TimerStepped(AfterCalls(s, calls[..k], clock), calls[k], AfterCalls(s, calls[..k + 1], clock), clock)
  }

  /** One call. */
  method MakeCall(timers: TimerList, call: TimerCall) returns (r: Outcome)
    requires timers.Valid() && Placeable(TimerState(timers.entries, timers.tick, timers.count), call, timers.clock)
    modifies timers
    ensures timers.Valid()
    ensures var s := old(TimerState(timers.entries, timers.tick, timers.count));
            && (r.Halted? <==> Refused(s, call, timers.capacity)) && (r.Halted? ==> timers.entries == s.entries)
            && (r.Returned? ==>
                  && TimerState(timers.entries, timers.tick, timers.count) == AfterCall(s, call, timers.clock)
                  && TimerStepped(s, call, TimerState(timers.entries, timers.tick, timers.count), timers.clock))
  {
    hide Insert, Find, Without, Rebased, Sorted, TimerStepped;
    r := Returned;
    AfterCallStepped(TimerState(timers.entries, timers.tick, timers.count), call, timers.clock);
    match call
    case Start(msecs, h, arg) =>
      r := timers.Timeout(msecs, h, arg);
    case Cancel(h, arg) =>
      timers.Untimeout(h, arg);
    case Restart =>
      timers.RestartTimeouts();
  }

  /** Everything pending lies in the half range from `lo`, and so does every rescheduled time. */
  ghost predicate Inside(es: seq<Entry>, lo: nat, latest: nat) {
    forall i :: 0 <= i < |es| ==> lo <= es[i].due < lo + HALF && Fits(es[i].h, lo, latest)
  }

  /** A cyclic handler's positive interval fits in the window behind the clock reading `latest`. */
  predicate Fits(h: Handler, lo: nat, latest: nat) {
    h.Cyclic? ==> 0 < h.interval && latest + h.interval < lo + HALF
  }

  lemma InsideInsert(es: seq<Entry>, e: Entry, lo: nat, latest: nat)
    requires Inside(es, lo, latest) && Inside([e], lo, latest)
    ensures Inside(Insert(es, e), lo, latest)
  {
    assert [e][0] == e;
    InsertMembers(es, e);
    forall i | 0 <= i < |Insert(es, e)|
      ensures lo <= Insert(es, e)[i].due < lo + HALF && Fits(Insert(es, e)[i].h, lo, latest)
    {
      assert Insert(es, e)[i] in multiset(Insert(es, e));
      assert Insert(es, e)[i] == e || Insert(es, e)[i] in es;
    }
  }

  lemma StampAdd(t: nat, d: nat)
    ensures (Stamp(t) + d) % SPAN == Stamp(t + d)
  {
    assert Stamp(t) + d == t + d - SPAN * (t / SPAN);
  }

  lemma RebaseStamp(due: nat, first: nat, now: nat)
    requires first <= due
    ensures ((Stamp(due) - Stamp(first)) % SPAN + Stamp(now)) % SPAN == Stamp(due - first + now)
  {
    var d := due - first;
    assert Stamp(due) - Stamp(first) == d - SPAN * (due / SPAN - first / SPAN);
    assert (Stamp(due) - Stamp(first)) % SPAN == d % SPAN;
    assert d % SPAN + Stamp(now) == d + now - SPAN * (d / SPAN + now / SPAN);
  }

  // ---------- The clock of this port ----------

  const CLOCK_FREQUENCY := 50_000_000

  /** sys_now of sys_arch.c: a 32-bit tick counter divided down to milliseconds. */
  function PortNow(ticks: nat): U32 { Stamp(ticks) / (CLOCK_FREQUENCY / 1000) }

  /**
   The port's clock goes back to zero after 85899, so wrap-around is not harmless: a timer with
   32-bit due time `due` can ever be found expired exactly when `due` is at most 85899, or so
   large that the comparison takes it to be in the past.
   */
  lemma PortTimerExpires(due: U32)
    ensures (exists ticks: nat :: !TimeLessThan(PortNow(ticks), due)) <==> due <= 85_899 || due > HALF
  {
    if due <= 85_899 {
      assert PortNow(due * 50_000) == due;
      assert !TimeLessThan(PortNow(due * 50_000), due);
    } else if due > HALF {
      assert PortNow(0) == 0;
      assert (0 - due) % SPAN == SPAN - due;
      assert !TimeLessThan(PortNow(0), due);
    } else {
      forall ticks: nat ensures TimeLessThan(PortNow(ticks), due) {
        PortRange(ticks);
        assert (PortNow(ticks) - due) % SPAN == PortNow(ticks) - due + SPAN;
      }
    }
  }

  /** Hence a timeout whose due time is past 85899 never fires, and every other one can. */
  lemma PortTimeoutLost(armed: nat, msecs: nat)
    requires msecs <= 0xFFFF_FFFF / 4
    ensures (forall ticks: nat :: TimeLessThan(PortNow(ticks), (PortNow(armed) + msecs) % SPAN)) <==>
            PortNow(armed) + msecs > 85_899
  {
    PortRange(armed);
    hide TimeLessThan, Stamp, PortNow;
    PortTimerExpires(PortNow(armed) + msecs);
  }

  lemma PortRange(ticks: nat)
    ensures PortNow(ticks) <= 85_899
  {
  }
}
