/** Ordering the padded entries and filling in the missing cars and skins. */
module EntryFill {
  import opened Wrappers
  import opened SeqUtil
  import opened Entries
  import opened SkinPool

  /** The entries whose Steam id is set (withId = true) or is not set, in order. */
  function BySteam(xs: seq<Entry>, withId: bool): (r: seq<Entry>)
    decreases |xs|
    ensures forall i :: 0 <= i < |r| ==> Present(r[i].steamUid) == withId
    ensures |r| <= |xs|
  {
    if xs == [] then []
    else (if Present(xs[0].steamUid) == withId then [xs[0]] else []) + BySteam(xs[1..], withId)
  }

  /** The filter drops nothing that matches: each matching entry keeps its
      multiplicity, and every other entry is gone. */
  lemma {:induction false} BySteamContents(xs: seq<Entry>, withId: bool, x: Entry)
    decreases |xs|
    ensures multiset(BySteam(xs, withId))[x] == if Present(x.steamUid) == withId then multiset(xs)[x] else 0
  {
    if xs != [] {
      BySteamContents(xs[1..], withId, x);
      assert xs == [xs[0]] + xs[1..];
    }
  }

  lemma {:induction false} BySteamAppend(xs: seq<Entry>, ys: seq<Entry>, withId: bool)
    decreases |xs|
    ensures BySteam(xs + ys, withId) == BySteam(xs, withId) + BySteam(ys, withId)
  {
    if xs != [] {
      var head := if Present(xs[0].steamUid) == withId then [xs[0]] else [];
      assert (xs + ys)[0] == xs[0] && (xs + ys)[1..] == xs[1..] + ys;
      BySteamAppend(xs[1..], ys, withId);
      calc {
        BySteam(xs + ys, withId);
        head + BySteam(xs[1..] + ys, withId);
        head + (BySteam(xs[1..], withId) + BySteam(ys, withId));
        (head + BySteam(xs[1..], withId)) + BySteam(ys, withId);
      }
    } else {
      assert xs + ys == ys;
    }
  }

  /** Filtering a filtered sequence again keeps it, or empties it. */
  lemma {:induction false} BySteamTwice(xs: seq<Entry>, withId: bool, again: bool)
    decreases |xs|
    ensures BySteam(BySteam(xs, withId), again) == if withId == again then BySteam(xs, withId) else []
  {
    if xs != [] {
      BySteamTwice(xs[1..], withId, again);
      var head := if Present(xs[0].steamUid) == withId then [xs[0]] else [];
      BySteamAppend(head, BySteam(xs[1..], withId), again);
      if head != [] {
        assert head[1..] == [];
      }
    }
  }

  lemma {:induction false} BySteamSplit(xs: seq<Entry>)
    decreases |xs|
    ensures multiset(BySteam(xs, false)) + multiset(BySteam(xs, true)) == multiset(xs)
  {
    if xs != [] {
      BySteamSplit(xs[1..]);
      assert xs == [xs[0]] + xs[1..];
    }
  }

  /** assigned_cars_to_back: entries without a Steam id first, then those with one. */
  function AssignedToBack(xs: seq<Entry>): (r: seq<Entry>)
    ensures multiset(r) == multiset(xs)
    ensures |r| == |xs|
    ensures forall i :: 0 <= i < |r| ==> (Present(r[i].steamUid) <==> i >= |BySteam(xs, false)|)
  {
    BySteamSplit(xs);
    var r := BySteam(xs, false) + BySteam(xs, true);
    assert |r| == |multiset(r)| == |multiset(xs)| == |xs|;
    r
  }

  /** The reordering is stable: within each group the original order is kept. */
  lemma AssignedToBackStable(xs: seq<Entry>, withId: bool)
    ensures BySteam(AssignedToBack(xs), withId) == BySteam(xs, withId)
  {
    BySteamAppend(BySteam(xs, false), BySteam(xs, true), withId);
    BySteamTwice(xs, false, withId);
    BySteamTwice(xs, true, withId);
  }

  /** Reordering twice is reordering once. */
  lemma AssignedToBackIdempotent(xs: seq<Entry>)
    ensures AssignedToBack(AssignedToBack(xs)) == AssignedToBack(xs)
  {
    AssignedToBackStable(xs, false);
    AssignedToBackStable(xs, true);
  }

  /** The random outcomes used for one slot: random.choice over the biased car
      list, which element set.pop() yields, and random.choice over the base skins. */
  datatype SlotChoice = SlotChoice(car: nat, pick: nat, fallback: nat)

  function Head(choices: seq<SlotChoice>): SlotChoice {
    if choices == [] then SlotChoice(0, 0, 0) else choices[0]
  }

  function Tail(choices: seq<SlotChoice>): seq<SlotChoice> {
    if choices == [] then [] else choices[1..]
  }

  /** One filled slot of the entry list. */
  datatype Slot = Slot(name: Option<string>, car: string, skin: string, steamUid: Option<string>, source: SkinSource)

  /** How a slot relates to the entry it was filled from. */
  predicate Fits(e: Entry, s: Slot, cars: seq<string>) {
    && s.name == e.name && s.steamUid == e.steamUid
    && (Present(e.car) ==> s.car == e.car.value)
    && (!Present(e.car) ==> s.car in cars)
    && (Present(e.skin) <==> s.source == Requested)
    && (Present(e.skin) ==> s.skin == e.skin.value)
  }

  /** Every pool lists only skins of its car, without repetition. */
  predicate PoolsWithin(pools: Pools, base: BaseSkins) {
    forall c :: c in pools ==> c in base && Distinct(pools[c]) && forall k :: 0 <= k < |pools[c]| ==> pools[c][k] in base[c]
  }

  /** A skin that was not requested belongs to the slot's car. */
  predicate SkinOfCar(s: Slot, base: BaseSkins) {
    s.source != Requested ==> s.car in base && s.skin in base[s.car]
  }

  datatype Step = Step(slot: Slot, pools: Pools)

  /** The pools after a step: a pooled slot took its skin out of its car's
      pool, every other pool is as before, and a slot fell back only when its
      car had no free skin. */
  predicate Consumed(before: Pools, st: Step) {
    && st.pools.Keys == before.Keys
    && (st.slot.source == Pooled ==> st.slot.car in before && st.slot.skin in before[st.slot.car])
    && (st.slot.source == Fallback ==> st.slot.car !in before || |before[st.slot.car]| == 0)
    && forall c :: c in before ==>
         if st.slot.source == Pooled && c == st.slot.car
         then multiset(st.pools[c]) + multiset{st.slot.skin} == multiset(before[c])
         else st.pools[c] == before[c]
  }

  /** The car a slot gets: its own, or random.choice over `cars` when it has none. */
  function ChosenCar(e: Entry, cars: seq<string>, c: SlotChoice): string
    requires Present(e.car) || cars != []
  {
    if Present(e.car) then e.car.value else cars[c.car % |cars|]
  }

  /** A car has a base skin to fall back on. */
  predicate CanDraw(car: string, base: BaseSkins) {
    car in base && |base[car]| > 0
  }

  /** One iteration of the loop in print_entry_list_ini; `cars` is the biased
      car list a car is chosen from when the entry has none. It fails exactly
      when there is no car to choose from, or when the slot needs a skin and
      its car has neither a free skin nor a base skin to fall back on. */
  function FillOne(e: Entry, pools: Pools, base: BaseSkins, cars: seq<string>, c: SlotChoice): (r: Result<Step, PoolError>)
    ensures r.Success? ==> Fits(e, r.value.slot, cars) && Consumed(pools, r.value)
    ensures r.Success? && PoolsWithin(pools, base) ==> PoolsWithin(r.value.pools, base) && SkinOfCar(r.value.slot, base)
    ensures r.Failure? <==>
      || (!Present(e.car) && cars == [])
      || (!Present(e.skin)
          && var car := ChosenCar(e, cars, c);
             !(car in pools && |pools[car]| > 0) && !CanDraw(car, base))
  {
    if !Present(e.car) && cars == [] then Failure(NoCarsToChoose)
    else
      var car := ChosenCar(e, cars, c);
      if Present(e.skin) then Success(Step(Slot(e.name, car, e.skin.value, e.steamUid, Requested), pools))
      else
        var d :- Draw(pools, base, car, c.pick, c.fallback);
        DrawKeepsPools(pools, base, car, c.pick, c.fallback);
        Success(Step(Slot(e.name, car, d.skin, e.steamUid, d.source), d.pools))
  }

  lemma DrawKeepsPools(pools: Pools, base: BaseSkins, car: string, pick: nat, fallback: nat)
    requires Draw(pools, base, car, pick, fallback).Success?
    ensures var d := Draw(pools, base, car, pick, fallback).value;
      PoolsWithin(pools, base) ==> PoolsWithin(d.pools, base) && (d.source == Pooled ==> car in base && d.skin in base[car])
  {
    var d := Draw(pools, base, car, pick, fallback).value;
    if PoolsWithin(pools, base) {
      DrawRemovesSkin(pools, base, car, pick, fallback);
      if d.source == Pooled {
        forall k | 0 <= k < |d.pools[car]| ensures d.pools[car][k] in base[car] {
          assert d.pools[car][k] in pools[car];
        }
      }
    }
  }

  /** Each step starts from the pools the previous one left. */
  predicate Threaded(pools: Pools, base: BaseSkins, steps: seq<Step>)
    decreases |steps|
  {
    steps != [] ==>
      && Consumed(pools, steps[0])
      && (PoolsWithin(pools, base) ==> PoolsWithin(steps[0].pools, base))
      && Threaded(steps[0].pools, base, steps[1..])
  }

  /** The loop over all slots, as the sequence of its steps. */
  function FillSteps(entries: seq<Entry>, pools: Pools, base: BaseSkins, cars: seq<string>, choices: seq<SlotChoice>): (r: Result<seq<Step>, PoolError>)
    decreases |entries|
    ensures r.Success? ==>
              && |r.value| == |entries|
              && Threaded(pools, base, r.value)
              && forall i :: 0 <= i < |entries| ==> Fits(entries[i], r.value[i].slot, cars)
    ensures r.Success? && PoolsWithin(pools, base) ==> forall i :: 0 <= i < |entries| ==> SkinOfCar(r.value[i].slot, base)
  {
    if entries == [] then Success([])
    else
      var st :- FillOne(entries[0], pools, base, cars, Head(choices));
      var rest :- FillSteps(entries[1..], st.pools, base, cars, Tail(choices));
      assert forall i :: 1 <= i < |entries| ==> entries[i] == entries[1..][i - 1];
      assert ([st] + rest)[1..] == rest;
      Success([st] + rest)
  }

  /** Every car random.choice may pick has a base skin to fall back on. */
  predicate CarsDrawable(cars: seq<string>, base: BaseSkins) {
    cars != [] && forall i :: 0 <= i < |cars| ==> CanDraw(cars[i], base)
  }

  /** Every entry that comes with a car but needs a skin drawn names a car with
      a base skin to fall back on. */
  predicate EntriesDrawable(entries: seq<Entry>, base: BaseSkins) {
    forall k :: 0 <= k < |entries| && Present(entries[k].car) && !Present(entries[k].skin) ==>
      CanDraw(entries[k].car.value, base)
  }

  /** The loop never fails when every car a slot can end up with has a base
      skin, whatever the pools and the random outcomes. */
  lemma {:induction false} FillStepsSucceeds(entries: seq<Entry>, pools: Pools, base: BaseSkins, cars: seq<string>, choices: seq<SlotChoice>)
    requires CarsDrawable(cars, base) && EntriesDrawable(entries, base)
    ensures FillSteps(entries, pools, base, cars, choices).Success?
    decreases |entries|
  {
    if entries != [] {
      var e := entries[0];
      if !Present(e.car) {
        assert CanDraw(cars[Head(choices).car % |cars|], base);
      }
      var st := FillOne(e, pools, base, cars, Head(choices));
      assert st.Success?;
      assert forall k :: 0 <= k < |entries| - 1 ==> entries[1..][k] == entries[k + 1];
      FillStepsSucceeds(entries[1..], st.value.pools, base, cars, Tail(choices));
    }
  }

  /** The slots of a run of steps. */
  function Slots(steps: seq<Step>): (r: seq<Slot>)
    ensures |r| == |steps| && forall i :: 0 <= i < |steps| ==> r[i] == steps[i].slot
  {
    seq(|steps|, i requires 0 <= i < |steps| => steps[i].slot)
  }

  /** A pooled skin was free in the pools the run started from. */
  lemma {:induction false} PooledFromPool(pools: Pools, base: BaseSkins, steps: seq<Step>, i: nat)
    requires Threaded(pools, base, steps)
    requires i < |steps| && steps[i].slot.source == Pooled
    ensures steps[i].slot.car in pools && steps[i].slot.skin in pools[steps[i].slot.car]
    decreases |steps|
  {
    if i > 0 {
      PooledFromPool(steps[0].pools, base, steps[1..], i - 1);
      assert steps[1..][i - 1] == steps[i];
      ConsumedShrinks(pools, steps[0], steps[i].slot.car, steps[i].slot.skin);
    }
  }

  /** A step only ever takes skins out of the pools. */
  lemma ConsumedShrinks(pools: Pools, st: Step, car: string, skin: string)
    requires Consumed(pools, st)
    requires car in st.pools && skin in st.pools[car]
    ensures car in pools && skin in pools[car]
  {
    if st.slot.source == Pooled && car == st.slot.car {
      assert multiset(st.pools[car]) + multiset{st.slot.skin} == multiset(pools[car]);
      assert skin in multiset(st.pools[car]);
      assert skin in multiset(pools[car]);
    }
  }

  /** Taking a skin out of a repetition-free pool leaves the pool without it. */
  lemma ConsumedDistinct(pools: Pools, base: BaseSkins, st: Step)
    requires PoolsWithin(pools, base) && Consumed(pools, st) && st.slot.source == Pooled
    ensures forall s :: s in st.pools[st.slot.car] <==> s in pools[st.slot.car] && s != st.slot.skin
  {
    var car := st.slot.car;
    var before := pools[car];
    var after := st.pools[car];
    forall s ensures s in after <==> s in before && s != st.slot.skin {
      assert multiset(after)[s] + multiset{st.slot.skin}[s] == multiset(before)[s];
      assert multiset(before)[s] <= 1 by {
        DistinctCount(before, s);
      }
    }
  }

  /** Two slots that drew from the pool of the same car got different skins. */
  lemma {:induction false} PooledDistinct(pools: Pools, base: BaseSkins, steps: seq<Step>, i: nat, j: nat)
    requires PoolsWithin(pools, base) && Threaded(pools, base, steps)
    requires i < j < |steps|
    requires steps[i].slot.source == Pooled && steps[j].slot.source == Pooled
    requires steps[i].slot.car == steps[j].slot.car
    ensures steps[i].slot.skin != steps[j].slot.skin
    decreases |steps|
  {
    assert steps[1..][j - 1] == steps[j];
    if i > 0 {
      assert steps[1..][i - 1] == steps[i];
      PooledDistinct(steps[0].pools, base, steps[1..], i - 1, j - 1);
    } else {
      PooledFromPool(steps[0].pools, base, steps[1..], j - 1);
      ConsumedDistinct(pools, base, steps[0]);
    }
  }

  /** A slot falls back to an arbitrary base skin only once every skin that was
      free for its car has been drawn by an earlier slot. */
  lemma {:induction false} FallbackExhausted(pools: Pools, base: BaseSkins, steps: seq<Step>, i: nat, skin: string)
    requires PoolsWithin(pools, base) && Threaded(pools, base, steps)
    requires i < |steps| && steps[i].slot.source == Fallback
    requires steps[i].slot.car in pools && skin in pools[steps[i].slot.car]
    ensures exists k :: 0 <= k < i && steps[k].slot.source == Pooled && steps[k].slot.car == steps[i].slot.car
                        && steps[k].slot.skin == skin
    decreases |steps|
  {
    var car := steps[i].slot.car;
    var first := steps[0].slot;
    if i > 0 && !(first.source == Pooled && first.car == car && first.skin == skin) {
      if first.source == Pooled && first.car == car {
        ConsumedDistinct(pools, base, steps[0]);
      }
      assert steps[1..][i - 1] == steps[i];
      FallbackExhausted(steps[0].pools, base, steps[1..], i - 1, skin);
      var k :| 0 <= k < i - 1 && steps[1..][k].slot.source == Pooled && steps[1..][k].slot.car == car
               && steps[1..][k].slot.skin == skin;
      assert steps[k + 1] == steps[1..][k];
    }
  }
}
