/** Base skins and the per-car pools of skins nobody has asked for. */
module SkinPool {
  import opened Wrappers
  import opened SeqUtil
  import opened Entries
  import opened CarCatalog

  /** Car to the skins it ships with, as loaded from the JSON file. */
  type BaseSkins = map<string, seq<string>>

  /** Car to the skins still free for random assignment; each without repetition. */
  type Pools = map<string, seq<string>>

  datatype PoolError =
    | CarsMismatch
    | NoSkinsForCar(car: string)
    | EmptySkinList(car: string)
    | NoCarsToChoose

  /** update_base_skins: the loaded table must cover exactly the known cars. */
  function LoadBaseSkins(json: BaseSkins): (r: Result<BaseSkins, PoolError>)
    ensures r.Success? <==> json.Keys == set c | c in AllCars
    ensures r.Success? ==> r.value == json
    ensures r.Failure? ==> r.error == CarsMismatch
  {
    if json.Keys == set c | c in AllCars then Success(json) else Failure(CarsMismatch)
  }

  /** The skins racers explicitly asked for on `car`. */
  function Explicit(entries: seq<Entry>, car: string): set<string> {
    set i | 0 <= i < |entries| && entries[i].car == Some(car) && Present(entries[i].skin) :: entries[i].skin.value
  }

  /** get_unassigned_skins: every base skin not explicitly asked for on its car. */
  function UnassignedSkins(base: BaseSkins, entries: seq<Entry>): (r: Pools)
    ensures r.Keys == base.Keys
    ensures forall car :: car in r ==> Distinct(r[car])
    ensures forall car, s :: car in r ==> (s in r[car] <==> s in base[car] && s !in Explicit(entries, car))
  {
    map car | car in base :: Unique(Without(base[car], Explicit(entries, car)))
  }

  /** Where a slot's skin came from. */
  datatype SkinSource = Requested | Pooled | Fallback

  datatype Drawn = Drawn(skin: string, pools: Pools, source: SkinSource)

  /** select_random_skin. `pick` chooses which free skin set.pop() returns;
      `fallback` is random.choice's index into the base list once none is free. */
  function Draw(pools: Pools, base: BaseSkins, car: string, pick: nat, fallback: nat): (r: Result<Drawn, PoolError>)
    ensures car in pools && |pools[car]| > 0 ==>
              && r.Success? && r.value.source == Pooled && r.value.skin in pools[car]
              && r.value.pools.Keys == pools.Keys
              && |r.value.pools[car]| == |pools[car]| - 1
              && (forall c :: c in pools && c != car ==> r.value.pools[c] == pools[c])
              && multiset(r.value.pools[car]) + multiset{r.value.skin} == multiset(pools[car])
    ensures !(car in pools && |pools[car]| > 0) ==>
              && (r.Failure? <==> car !in base || |base[car]| == 0)
              && (r.Success? ==> r.value.source == Fallback && r.value.skin in base[car] && r.value.pools == pools)
  {
    if car in pools && |pools[car]| > 0 then
      var k := pick % |pools[car]|;
      Success(Drawn(pools[car][k], pools[car := RemoveAt(pools[car], k)], Pooled))
    else if car !in base then Failure(NoSkinsForCar(car))
    else if |base[car]| == 0 then Failure(EmptySkinList(car))
    else Success(Drawn(base[car][fallback % |base[car]|], pools, Fallback))
  }

  /** A pooled draw keeps the pools free of repetition and removes exactly the
      drawn skin. */
  lemma DrawRemovesSkin(pools: Pools, base: BaseSkins, car: string, pick: nat, fallback: nat)
    requires forall c :: c in pools ==> Distinct(pools[c])
    requires Draw(pools, base, car, pick, fallback).Success?
    ensures var d := Draw(pools, base, car, pick, fallback).value;
      && (forall c :: c in d.pools ==> Distinct(d.pools[c]))
      && (d.source == Pooled ==> forall s :: s in d.pools[car] <==> s in pools[car] && s != d.skin)
  {
    if car in pools && |pools[car]| > 0 {
      RemoveAtDistinct(pools[car], pick % |pools[car]|);
    }
  }
}
