/** Entries of a practice server: every slot gets a car, cycling through a
    shuffled car list, with no racer, skin or Steam id. */
module Practice {
  import opened Wrappers
  import opened SeqUtil
  import opened Entries
  import opened CarCatalog

  /** random.sample(population, len(population)) on its pool path: at step i a
      random index j below the remaining size picks pool[j], and the last
      remaining element moves into position j. `draws` gives the indices. */
  function Shuffle(pool: seq<string>, draws: seq<nat>): (r: seq<string>)
    decreases |pool|
    ensures |r| == |pool|
  {
    if pool == [] then []
    else
      var j := (if draws == [] then 0 else draws[0]) % |pool|;
      var last := |pool| - 1;
      [pool[j]] + Shuffle(pool[j := pool[last]][..last], if draws == [] then [] else draws[1..])
  }

  /** One step of the sample keeps the values: the drawn one plus the rest. */
  lemma ShuffleStep(pool: seq<string>, j: nat)
    requires j < |pool|
    ensures multiset{pool[j]} + multiset(pool[j := pool[|pool| - 1]][..|pool| - 1]) == multiset(pool)
  {
    var last := |pool| - 1;
    if j == last {
      assert pool == pool[..last] + [pool[last]];
      assert pool[j := pool[last]] == pool;
    } else {
      var moved := pool[j := pool[last]][..last];
      assert pool == pool[..j] + [pool[j]] + pool[j + 1..last] + [pool[last]];
      assert moved == pool[..j] + [pool[last]] + pool[j + 1..last];
    }
  }

  /** The shuffle is a permutation of the population. */
  lemma {:induction false} ShufflePermutes(pool: seq<string>, draws: seq<nat>)
    decreases |pool|
    ensures multiset(Shuffle(pool, draws)) == multiset(pool)
  {
    if pool != [] {
      var j := (if draws == [] then 0 else draws[0]) % |pool|;
      var last := |pool| - 1;
      ShufflePermutes(pool[j := pool[last]][..last], if draws == [] then [] else draws[1..]);
      ShuffleStep(pool, j);
    }
  }

  /** The list cycled over: the biased list, unless there are fewer slots than
      its length, in which case each car once. */
  function PracticeCars(slots: int): (cars: seq<string>)
    ensures |cars| > 0
  {
    BiasedCarsLength();
    if slots < |BiasedCars| then AllCars else BiasedCars
  }

  /** The cycled list holds exactly the known cars. It is the unbiased list,
      each car once, below as many slots as the biased list has entries, and
      the biased list from there on; either way it fits in the slots once there
      are at least as many slots as cars. */
  lemma PracticeCarsFacts(slots: int)
    ensures forall c :: c in PracticeCars(slots) <==> c in AllCars
    ensures slots >= |AllCars| ==> |PracticeCars(slots)| <= slots
    ensures slots <= |AllCars| ==> PracticeCars(slots) == AllCars && Distinct(AllCars)
    ensures slots < |BiasedCars| ==> PracticeCars(slots) == AllCars
    ensures slots >= |BiasedCars| ==> PracticeCars(slots) == BiasedCars
  {
    AllCarsFacts();
    BiasedCarsLength();
    forall c ensures c in PracticeCars(slots) <==> c in AllCars {
      BiasedCarsMultiplicity(c);
    }
  }

  /** `count` entries with the cars of `cars`, over and over. */
  function Cycle(cars: seq<string>, count: nat): (r: seq<Entry>)
    requires |cars| > 0
    ensures |r| == count
    ensures forall i :: 0 <= i < count ==> r[i] == Blank.(car := Some(cars[i % |cars|]))
  {
    seq(count, i requires 0 <= i < count => Blank.(car := Some(cars[i % |cars|])))
  }

  /** make_practice_server_entries: shuffle the cycled list once, then take
      cars from it in turn until every slot has one. */
  function PracticeEntries(slots: int, draws: seq<nat>): (r: seq<Entry>)
    ensures |r| == if slots < 0 then 0 else slots
  {
    Cycle(Shuffle(PracticeCars(slots), draws), if slots < 0 then 0 else slots)
  }

  lemma ModBelow(k: nat, n: nat)
    requires k < n
    ensures k % n == k
  {
  }

  /** Cycling covers the whole list once there are enough entries. */
  lemma CycleCovers(cars: seq<string>, count: nat, c: string)
    requires |cars| > 0 && count >= |cars| && c in cars
    ensures exists i :: 0 <= i < count && Cycle(cars, count)[i].car == Some(c)
  {
    var k :| 0 <= k < |cars| && cars[k] == c;
    ModBelow(k, |cars|);
    assert Cycle(cars, count)[k].car == Some(c);
  }

  /** Cycling a repetition-free list no further than its length repeats nothing. */
  lemma CycleDistinct(cars: seq<string>, count: nat, i: nat, j: nat)
    requires |cars| > 0 && count <= |cars| && Distinct(cars)
    requires i < j < count
    ensures Cycle(cars, count)[i].car != Cycle(cars, count)[j].car
  {
    ModBelow(i, |cars|);
    ModBelow(j, |cars|);
  }

  /** Cycling a shuffled list only ever hands out cars of the list. */
  lemma CycleShuffledFrom(cars: seq<string>, draws: seq<nat>, count: nat, i: nat)
    requires |cars| > 0 && i < count
    ensures Cycle(Shuffle(cars, draws), count)[i].car.value in cars
  {
    var shuffled := Shuffle(cars, draws);
    ShufflePermutes(cars, draws);
    assert shuffled[i % |shuffled|] in multiset(cars);
  }

  /** Every practice entry has a known car and nothing else. */
  lemma PracticeCarsKnown(slots: int, draws: seq<nat>, i: nat)
    requires i < |PracticeEntries(slots, draws)|
    ensures var e := PracticeEntries(slots, draws)[i];
      e.car.Some? && e.car.value in AllCars && e.name.None? && e.rdUid.None? && e.steamUid.None? && e.skin.None?
  {
    var cars := PracticeCars(slots);
    CycleShuffledFrom(cars, draws, slots, i);
    PracticeCarsFacts(slots);
  }

  /** With at least as many slots as cars, every car is on the grid. */
  lemma EveryCarPresent(slots: int, draws: seq<nat>, c: string)
    requires slots >= |AllCars| && c in AllCars
    ensures exists i :: 0 <= i < |PracticeEntries(slots, draws)| && PracticeEntries(slots, draws)[i].car == Some(c)
  {
    var cars := PracticeCars(slots);
    var shuffled := Shuffle(cars, draws);
    ShufflePermutes(cars, draws);
    PracticeCarsFacts(slots);
    assert c in multiset(shuffled);
    assert |shuffled| <= slots;
    CycleCovers(shuffled, slots, c);
    var i :| 0 <= i < slots && Cycle(shuffled, slots)[i].car == Some(c);
    assert PracticeEntries(slots, draws) == Cycle(shuffled, slots);
  }

  /** With no more slots than cars, no car is on the grid twice. */
  lemma NoCarTwice(slots: int, draws: seq<nat>, i: nat, j: nat)
    requires slots <= |AllCars|
    requires i < j < |PracticeEntries(slots, draws)|
    ensures PracticeEntries(slots, draws)[i].car != PracticeEntries(slots, draws)[j].car
  {
    PracticeCarsFacts(slots);
    var shuffled := Shuffle(AllCars, draws);
    ShufflePermutes(AllCars, draws);
    DistinctIffCounts(AllCars);
    DistinctIffCounts(shuffled);
    CycleDistinct(shuffled, slots, i, j);
  }
}
