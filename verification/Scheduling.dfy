/** The task table, its dispatch order, and the timer, as a state machine. */
module Scheduling {
  import opened Arithmetic
  import opened Machine

  const SLOTS := 256
  const PERIOD := 18

  /** Which slots hold a task, the task count, the slot to run next, the number of tasks left,
      the tick count, and the slots run so far. */
  datatype Table = Table(slots: seq<bool>, num: nat, current: Word, rem: Word, ticks: nat, log: seq<Word>)

  const EMPTY := Table(seq(SLOTS, _ => false), 0, 0xFF, 0, 0, [])

  function Occupied(slots: seq<bool>): nat {
    if slots == [] then 0 else Occupied(slots[..|slots| - 1]) + if slots[|slots| - 1] then 1 else 0
  }

  /** The first free slot. */
  function FirstFree(slots: seq<bool>): (i: nat)
    ensures i <= |slots| && (i < |slots| ==> !slots[i])
    ensures forall k :: 0 <= k < i ==> slots[k]
  {
    if slots == [] || !slots[0] then 0 else 1 + FirstFree(slots[1..])
  }

  function Increment(w: Word): Word {
    (w + 1) % TWO_32
  }

  /** A new task takes the first free slot, but the slot to run next becomes its pid. */
  function Add(t: Table, pid: Word): Table {
    if t.num == SLOTS then t
    else
      var i := FirstFree(t.slots);
      if i == |t.slots| then t
      else t.(slots := t.slots[i := true], num := t.num + 1, current := pid, rem := Increment(t.rem))
  }

  function Remove(t: Table, index: nat): Table {
    if index < |t.slots| then t.(slots := t.slots[index := false]) else t
  }

  function Clear(t: Table): Table {
    if t.num == 0 then t else t.(slots := seq(|t.slots|, _ => false), num := 0, current := 0)
  }

  /** The slot to run next after one has run. */
  function Following(current: Word, num: nat): Word
    requires 0 < num <= SLOTS
  {
    var next := Increment(current);
    if next >= num then next % num else next
  }

  function Dispatch(t: Table): Table {
    if 0 < t.num <= SLOTS then
      Remove(t, t.current).(log := t.log + [t.current], rem := Decrement(t.rem), current := Following(t.current, t.num))
    else t
  }

  /** Every eighteenth tick runs a task, if there is one left. */
  function Tick(t: Table): Table {
    var t' := t.(ticks := t.ticks + 1);
    if t'.ticks % PERIOD == 0 && t'.rem > 0 then Dispatch(t') else t'
  }

  /** The next tick would call through an empty slot, or through a slot behind the table. */
  predicate Faults(t: Table) {
    (t.ticks + 1) % PERIOD == 0 && t.rem > 0 && 0 < t.num <= SLOTS
    && !(t.current < |t.slots| && t.slots[t.current])
  }

  function Ticks(t: Table, n: nat): Table {
    if n == 0 then t else Tick(Ticks(t, n - 1))
  }

  function AddAll(t: Table, pids: seq<Word>): Table {
    if pids == [] then t else Add(AddAll(t, pids[..|pids| - 1]), pids[|pids| - 1])
  }

  // ----- the count over all runs

  datatype Event = AddEvent(pid: Word) | RemoveEvent(index: nat) | ClearEvent | TickEvent

  function After(t: Table, e: Event): Table {
    match e
    case AddEvent(pid) => Add(t, pid)
    case RemoveEvent(index) => Remove(t, index)
    case ClearEvent => Clear(t)
    case TickEvent => Tick(t)
  }

  function AfterAll(t: Table, es: seq<Event>): Table {
    if es == [] then t else After(AfterAll(t, es[..|es| - 1]), es[|es| - 1])
  }

  predicate Counted(t: Table) {
    |t.slots| == SLOTS && Occupied(t.slots) <= t.num <= SLOTS
  }

  lemma {:induction false} OccupiedUpdate(slots: seq<bool>, i: nat, v: bool)
    requires i < |slots|
    ensures Occupied(slots[i := v]) == Occupied(slots) - (if slots[i] then 1 else 0) + (if v then 1 else 0)
  {
    var n := |slots| - 1;
    if i == n {
      assert slots[i := v][..n] == slots[..n];
    } else {
      assert slots[i := v][..n] == slots[..n][i := v];
      OccupiedUpdate(slots[..n], i, v);
    }
  }

  lemma {:induction false} OccupiedAll(slots: seq<bool>, v: bool)
    requires forall i :: 0 <= i < |slots| ==> slots[i] == v
    ensures Occupied(slots) == if v then |slots| else 0
  {
    if slots != [] {
      OccupiedAll(slots[..|slots| - 1], v);
    }
  }

  lemma {:induction false} OccupiedBound(slots: seq<bool>)
    ensures Occupied(slots) <= |slots|
  {
    if slots != [] {
      OccupiedBound(slots[..|slots| - 1]);
    }
  }

  lemma DispatchCounted(t: Table)
    requires Counted(t)
    ensures Counted(Dispatch(t))
  {
    if t.current < |t.slots| {
      OccupiedUpdate(t.slots, t.current, false);
    }
  }

  lemma AfterCounted(t: Table, e: Event)
    requires Counted(t)
    ensures Counted(After(t, e))
  {
    OccupiedBound(t.slots);
    match e
    case AddEvent(pid) =>
      var i := FirstFree(t.slots);
      if i < |t.slots| {
        OccupiedUpdate(t.slots, i, true);
      }
    case RemoveEvent(index) =>
      if index < |t.slots| {
        OccupiedUpdate(t.slots, index, false);
      }
    case ClearEvent => OccupiedAll(seq(|t.slots|, _ => false), false);
    case TickEvent => DispatchCounted(t.(ticks := t.ticks + 1));
  }

  /** In every run the task count is at least the number of occupied slots, so that whenever a
      task can be added the search for a free slot ends inside the table. */
  lemma {:induction false} RunCounted(es: seq<Event>)
    ensures Counted(AfterAll(EMPTY, es))
    ensures AfterAll(EMPTY, es).num < 256 ==> FirstFree(AfterAll(EMPTY, es).slots) < 256
  {
    if es == [] {
      OccupiedAll(EMPTY.slots, false);
    } else {
      RunCounted(es[..|es| - 1]);
      AfterCounted(AfterAll(EMPTY, es[..|es| - 1]), es[|es| - 1]);
    }
    var t := AfterAll(EMPTY, es);
    if FirstFree(t.slots) == |t.slots| {
      OccupiedAll(t.slots, true);
    }
  }

  /** A new task goes into the first free slot of a table that is not full, and a full one stays as it is. */
  lemma AddedTask(t: Table, pid: Word) returns (i: nat)
    requires Counted(t)
    ensures t.num == 256 ==> Add(t, pid) == t
    ensures t.num < 256 ==>
              && i < 256 && !t.slots[i] && (forall k :: 0 <= k < i ==> t.slots[k])
              && Add(t, pid) == Table(t.slots[i := true], t.num + 1, pid, (t.rem + 1) % TWO_32, t.ticks, t.log)
  {
    i := FirstFree(t.slots);
    if i == |t.slots| {
      OccupiedAll(t.slots, true);
    }
  }

  /** Every eighteenth tick runs the current slot while tasks are left, empties it, and steps to the next slot
      modulo the number of tasks; every other tick only counts. */
  lemma TickedTable(t: Table)
    requires Counted(t)
    ensures var u := Tick(t);
            if (t.ticks + 1) % 18 == 0 && t.rem > 0 && t.num > 0 then
              && u.log == t.log + [t.current] && u.rem == t.rem - 1 && u.num == t.num && u.ticks == t.ticks + 1
              && |u.slots| == 256 && (forall s :: 0 <= s < 256 ==> (u.slots[s] <==> t.slots[s] && s != t.current))
              && u.current < t.num && (t.current + 1 < TWO_32 ==> (t.current + 1 - u.current) % t.num == 0)
            else u == t.(ticks := t.ticks + 1)
  {
    hide Occupied;
    if t.num > 0 {
      FollowingMod(t.current, t.num);
    }
  }

  lemma FollowingMod(current: Word, num: nat)
    requires 0 < num <= SLOTS
    ensures Following(current, num) < num
    ensures current + 1 < TWO_32 ==> (current + 1 - Following(current, num)) % num == 0
  {
    var next := Increment(current);
    if next >= num {
      DivMod(next, num);
      DivUnique(next - next % num, num, next / num, 0);
    } else {
      DivUnique(0, num, 0, 0);
    }
  }

  /** After any run that ends with a clear no slot is occupied, the count is zero, and the next task goes
      to slot 0; the number of tasks left is not touched. */
  lemma ClearedRun(es: seq<Event>, pid: Word)
    ensures var before, t := AfterAll(EMPTY, es), AfterAll(EMPTY, es + [ClearEvent]);
            && |t.slots| == 256 && (forall s :: 0 <= s < 256 ==> !t.slots[s]) && t.num == 0
            && (before.num > 0 ==> t.current == 0) && t.rem == before.rem && t.log == before.log
            && var u := Add(t, pid);
               && (forall s :: 0 <= s < 256 ==> (u.slots[s] <==> s == 0)) && u.num == 1 && u.current == pid
  {
    hide Occupied, FirstFree;
    var before, t := AfterAll(EMPTY, es), AfterAll(EMPTY, es + [ClearEvent]);
    assert (es + [ClearEvent])[..|es|] == es;
    RunCounted(es);
    if before.num == 0 {
      OccupiedNone(before.slots);
    }
    FirstFreeIs(t.slots, 0);
  }

  // ----- the dispatch order

  /** Slot number k of the order: from the first one upwards, and around. */
  function Nth(first: Word, n: nat, k: nat): (s: Word)
    requires first < n <= SLOTS
    ensures s < n
  {
    if k == 0 then first else if Nth(first, n, k - 1) + 1 == n then 0 else Nth(first, n, k - 1) + 1
  }

  /** The order is an arithmetic progression around the table. */
  lemma {:induction false} NthIs(first: Word, n: nat, k: nat)
    requires first < n <= SLOTS
    ensures Nth(first, n, k) == (first + k) % n
  {
    if k == 0 {
      DivSmall(first, n);
    } else {
      NthIs(first, n, k - 1);
      DivNext(first + k - 1, n);
    }
  }

  /** After n tasks have been added to an empty table and k of them have been run. */
  predicate Progress(t: Table, first: Word, n: nat, k: nat) {
    && first < n <= SLOTS && k <= n && |t.slots| == SLOTS && t.num == n
    && t.current == Nth(first, n, k) && t.rem == n - k && |t.log| == k
    && (forall i :: 0 <= i < k ==> t.log[i] == Nth(first, n, i))
    && (forall s :: 0 <= s < SLOTS ==> (t.slots[s] <==> s < n && s !in t.log))
  }

  lemma {:induction false} AddAllLoaded(pids: seq<Word>)
    requires |pids| <= SLOTS
    ensures var t := AddAll(EMPTY, pids);
            && |t.slots| == SLOTS && t.num == t.rem == |pids| && t.log == [] && t.ticks == 0
            && t.current == (if pids == [] then 0xFF else pids[|pids| - 1])
            && Occupied(t.slots) == |pids|
            && forall s :: 0 <= s < SLOTS ==> (t.slots[s] <==> s < |pids|)
  {
    hide FirstFree, Occupied;
    if pids != [] {
      var t := AddAll(EMPTY, pids[..|pids| - 1]);
      AddAllLoaded(pids[..|pids| - 1]);
      FirstFreeIs(t.slots, |pids| - 1);
      OccupiedUpdate(t.slots, |pids| - 1, true);
    } else {
      OccupiedAll(EMPTY.slots, false);
    }
  }

  lemma FirstFreeIs(slots: seq<bool>, n: nat)
    requires n < |slots| && !slots[n] && forall s :: 0 <= s < n ==> slots[s]
    ensures FirstFree(slots) == n
  {
    var f := FirstFree(slots);
    assert f < |slots| ==> !slots[f];
  }

  /** No slot comes up twice within one round. */
  lemma NthDistinct(first: Word, n: nat, i: nat, k: nat)
    requires first < n <= SLOTS && i < k < i + n
    ensures Nth(first, n, i) != Nth(first, n, k)
  {
    NthIs(first, n, i);
    NthIs(first, n, k);
    DivMod(first + i, n);
    DivMod(first + k, n);
    if Nth(first, n, i) == Nth(first, n, k) {
      var q, q' := (first + i) / n, (first + k) / n;
      assert (q' - q) * n == k - i by {
        assert q' * n - q * n == (q' - q) * n;
      }
      if q' - q >= 1 {
        TimesAtLeast(q' - q, n);
      } else {
        TimesMonotoneBelow(q' - q, n);
      }
      assert false;
    }
  }

  lemma TimesMonotoneBelow(m: int, n: nat)
    requires m <= 0
    ensures m * n <= 0
  {
  }

  /** A dispatch runs an occupied slot, the next one in the order. */
  lemma DispatchProgress(t: Table, first: Word, n: nat, k: nat)
    requires Progress(t, first, n, k) && k < n
    ensures t.current < SLOTS && t.slots[t.current]
    ensures Progress(Dispatch(t), first, n, k + 1)
    ensures Occupied(Dispatch(t).slots) == Occupied(t.slots) - 1
  {
    hide Following, Occupied, Increment;
    OccupiedUpdate(t.slots, t.current, false);
    forall i | 0 <= i < k
      ensures Nth(first, n, i) != t.current
    {
      NthDistinct(first, n, i, k);
    }
    assert t.current !in t.log;
    FollowingIsNext(t.current, n);
    assert forall s :: s in t.log + [t.current] <==> s in t.log || s == t.current;
  }

  lemma FollowingIsNext(current: Word, n: nat)
    requires current < n <= SLOTS
    ensures Following(current, n) == if current + 1 == n then 0 else current + 1
  {
    if current + 1 == n {
      DivUnique(n, n, 1, 0);
    }
  }

  /** How many tasks have been run after m ticks. */
  function Due(n: nat, m: nat): nat {
    Min(n, m / PERIOD)
  }

  lemma DueBound(n: nat, m: nat)
    ensures Due(n, m) <= n
  {
  }

  lemma DueStep(n: nat, m: nat)
    ensures Due(n, m + 1) == if (m + 1) % PERIOD == 0 && Due(n, m) < n then Due(n, m) + 1 else Due(n, m)
  {
    DivNext(m, PERIOD);
  }

  predicate OnTime(t: Table, first: Word, n: nat, k: nat) {
    Progress(t, first, n, k) && Occupied(t.slots) == n - k
  }

  lemma ClockOnly(t: Table, first: Word, n: nat, k: nat, m: nat)
    requires OnTime(t, first, n, k)
    ensures OnTime(t.(ticks := m), first, n, k) && t.rem == n - k && 0 < t.num <= SLOTS == |t.slots|
  {
  }

  lemma TickProgress(t: Table, first: Word, n: nat)
    requires OnTime(t, first, n, Due(n, t.ticks))
    ensures OnTime(Tick(t), first, n, Due(n, t.ticks + 1)) && Tick(t).ticks == t.ticks + 1 && !Faults(t)
  {
    hide Progress, Occupied, Due, Dispatch;
    var k, m := Due(n, t.ticks), t.ticks + 1;
    DueStep(n, t.ticks);
    DueBound(n, t.ticks);
    ClockOnly(t, first, n, k, m);
    if k < n {
      DispatchProgress(t.(ticks := m), first, n, k);
    }
    assert m % PERIOD == 0 && t.rem > 0 ==> Tick(t) == Dispatch(t.(ticks := m));
    DispatchKeepsClock(t.(ticks := m));
  }

  lemma DispatchKeepsClock(t: Table)
    ensures Dispatch(t).ticks == t.ticks
  {
  }

  /** After m ticks, min(n, m / 18) tasks have been run in order, and the next tick does not fault. */
  lemma {:induction false} TicksProgress(t: Table, first: Word, n: nat, m: nat)
    requires OnTime(t, first, n, 0) && t.ticks == 0
    ensures OnTime(Ticks(t, m), first, n, Due(n, m)) && Ticks(t, m).ticks == m && !Faults(Ticks(t, m))
  {
    hide OnTime, Faults, Tick;
    if m > 0 {
      TicksProgress(t, first, n, m - 1);
      TickProgress(Ticks(t, m - 1), first, n);
    } else {
      assert Due(n, 0) == 0;
    }
    TickProgress(Ticks(t, m), first, n);
  }

  /** Exactly once: tasks added to an empty table are run in order from the slot named by the pid
      of the last one, one every eighteen ticks, none twice, none through an empty slot; and the
      number of tasks left is the number of occupied slots. */
  lemma DispatchOrder(pids: seq<Word>, m: nat)
    requires 0 < |pids| <= 256 && pids[|pids| - 1] < |pids|
    ensures var n, first := |pids|, pids[|pids| - 1];
            var t := Ticks(AddAll(EMPTY, pids), m); var k := Min(n, m / 18);
            && |t.log| == k && (forall i :: 0 <= i < k ==> t.log[i] == (first + i) % n)
            && (forall i, j :: 0 <= i < j < k ==> t.log[i] != t.log[j])
            && (m / 18 >= n ==> forall s :: 0 <= s < n ==> s in t.log)
            && t.rem == Occupied(t.slots) == n - k && !Faults(t)
            && |t.slots| == 256 && forall s :: 0 <= s < 256 ==> (t.slots[s] <==> s < n && s !in t.log)
  {
    hide OnTime, Ticks, AddAll, Faults, Occupied;
    var n, first := |pids|, pids[|pids| - 1];
    LoadedOnTime(pids);
    TicksProgress(AddAll(EMPTY, pids), first, n, m);
    LogOrder(Ticks(AddAll(EMPTY, pids), m), first, n, Due(n, m));
  }

  lemma LoadedOnTime(pids: seq<Word>)
    requires 0 < |pids| <= SLOTS && pids[|pids| - 1] < |pids|
    ensures OnTime(AddAll(EMPTY, pids), pids[|pids| - 1], |pids|, 0) && AddAll(EMPTY, pids).ticks == 0
  {
    hide AddAll;
    AddAllLoaded(pids);
  }

  lemma LogOrder(t: Table, first: Word, n: nat, k: nat)
    requires OnTime(t, first, n, k)
    ensures |t.log| == k && forall i :: 0 <= i < k ==> t.log[i] == (first + i) % n
    ensures forall i, j :: 0 <= i < j < k ==> t.log[i] != t.log[j]
    ensures k == n ==> forall s :: 0 <= s < n ==> s in t.log
    ensures t.rem == Occupied(t.slots) == n - k
    ensures |t.slots| == SLOTS && forall s :: 0 <= s < SLOTS ==> (t.slots[s] <==> s < n && s !in t.log)
  {
    forall i | 0 <= i < k
      ensures t.log[i] == (first + i) % n
    {
      NthIs(first, n, i);
    }
    forall i, j | 0 <= i < j < k
      ensures t.log[i] != t.log[j]
    {
      NthDistinct(first, n, i, j);
    }
    if k == n {
      OccupiedNone(t.slots);
    }
  }

  lemma {:induction false} OccupiedNone(slots: seq<bool>)
    requires Occupied(slots) == 0
    ensures forall s :: 0 <= s < |slots| ==> !slots[s]
  {
    if slots != [] {
      OccupiedNone(slots[..|slots| - 1]);
    }
  }

  /** With pids equal to slots the last task runs first, then the others from slot 0 on. */
  lemma LastFirst(pids: seq<Word>, m: nat)
    requires 0 < |pids| <= 256 && pids[|pids| - 1] == |pids| - 1
    ensures var t := Ticks(AddAll(EMPTY, pids), m);
            forall i :: 0 <= i < |t.log| ==> t.log[i] == if i == 0 then |pids| - 1 else i - 1
  {
    var n, t := |pids|, Ticks(AddAll(EMPTY, pids), m);
    DispatchOrder(pids, m);
    forall i | 0 <= i < |t.log|
      ensures t.log[i] == if i == 0 then n - 1 else i - 1
    {
      DivUnique(n - 1 + i, n, if i == 0 then 0 else 1, if i == 0 then n - 1 else i - 1);
    }
  }

  /** No tick ever calls through an empty slot exactly when the pid of the last task is a slot
      that has been filled. */
  lemma NoFaultIff(pids: seq<Word>)
    requires 0 < |pids| <= 256
    ensures (forall m :: !Faults(Ticks(AddAll(EMPTY, pids), m))) <==> pids[|pids| - 1] < |pids|
  {
    if pids[|pids| - 1] < |pids| {
      forall m
        ensures !Faults(Ticks(AddAll(EMPTY, pids), m))
      {
        DispatchOrder(pids, m);
      }
    } else {
      AddAllLoaded(pids);
      QuietTicks(AddAll(EMPTY, pids), PERIOD - 1);
      assert Faults(Ticks(AddAll(EMPTY, pids), PERIOD - 1));
    }
  }

  /** Nothing is run before the eighteenth tick. */
  lemma {:induction false} QuietTicks(t: Table, m: nat)
    requires t.ticks == 0 && m < PERIOD
    ensures Ticks(t, m) == t.(ticks := m)
  {
    hide Dispatch;
    if m > 0 {
      QuietTicks(t, m - 1);
    }
  }

  // ----- writes through empty slots

  /** The next dispatch writes a state through an empty slot: that of the slot before the current
      one, or, when it steps around, that of the slot number `num`, which may lie behind the table. */
  predicate StrayWrite(t: Table) {
    || (0 < t.current <= |t.slots| && !t.slots[t.current - 1])
    || (t.current + 1 >= t.num && (t.num >= |t.slots| || t.num == t.current || !t.slots[t.num]))
  }

  lemma StrayProgress(t: Table, first: Word, n: nat, k: nat)
    requires Progress(t, first, n, k) && k < n
    ensures StrayWrite(t) <==> t.current + 1 == n || (k > 0 && t.current > 0)
  {
    if k > 0 && t.current > 0 {
      assert t.log[k - 1] == t.current - 1;
    }
  }

  /** Dispatch number k of a run in order writes a state through an empty slot exactly when it
      runs the last slot, or a slot other than 0 after another dispatch. */
  lemma StrayWriteIff(pids: seq<Word>, m: nat)
    requires 0 < |pids| <= 256 && pids[|pids| - 1] < |pids| && m / 18 < |pids|
    ensures var t, n, k := Ticks(AddAll(EMPTY, pids), m), |pids|, m / 18;
            && t.current == (pids[n - 1] + k) % n
            && (StrayWrite(t) <==> t.current + 1 == n || (k > 0 && t.current > 0))
  {
    hide Ticks, AddAll, StrayWrite, Faults, Occupied;
    var n, first, k := |pids|, pids[|pids| - 1], m / PERIOD;
    LoadedOnTime(pids);
    TicksProgress(AddAll(EMPTY, pids), first, n, m);
    NthIs(first, n, k);
    StrayProgress(Ticks(AddAll(EMPTY, pids), m), first, n, k);
  }

  /** So every run in order comes to such a write, at the tick at which it runs the last slot. */
  lemma StrayWriteHappens(pids: seq<Word>) returns (m: nat)
    requires 0 < |pids| <= 256 && pids[|pids| - 1] < |pids|
    ensures (m + 1) % 18 == 0 && m / 18 < |pids| && StrayWrite(Ticks(AddAll(EMPTY, pids), m))
  {
    hide Ticks, AddAll, StrayWrite;
    var k := |pids| - 1 - pids[|pids| - 1];
    m := PERIOD * (k + 1) - 1;
    assert m / PERIOD == k;
    DivSmall(|pids| - 1, |pids|);
    StrayWriteIff(pids, m);
  }
}
