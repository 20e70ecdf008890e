/** The entry list as configparser sections, one per slot. */
module EntryListIni {
  import opened Wrappers
  import opened SeqUtil
  import opened Entries
  import opened SkinPool
  import opened EntryFill

  function DigitChar(d: nat): char
    requires d < 10
  {
    "0123456789"[d]
  }

  function DigitValue(c: char): nat
    requires '0' <= c <= '9'
  {
    (c as int - '0' as int) as nat
  }

  predicate AllDigits(s: string) {
    forall k :: 0 <= k < |s| ==> '0' <= s[k] <= '9'
  }

  /** str() of a non-negative integer: decimal digits without leading zeros. */
  function Decimal(n: nat): (s: string)
    ensures |s| > 0 && AllDigits(s)
    ensures |s| > 1 ==> s[0] != '0'
  {
    if n < 10 then [DigitChar(n)] else Decimal(n / 10) + [DigitChar(n % 10)]
  }

  /** Reading decimal digits back as a number. */
  function ParseDecimal(s: string): nat
    requires AllDigits(s)
    decreases |s|
  {
    if s == [] then 0 else 10 * ParseDecimal(s[..|s| - 1]) + DigitValue(s[|s| - 1])
  }

  lemma {:induction false} DecimalRoundTrip(n: nat)
    ensures ParseDecimal(Decimal(n)) == n
    decreases n
  {
    var s := Decimal(n);
    if n >= 10 {
      DecimalRoundTrip(n / 10);
      assert s[..|s| - 1] == Decimal(n / 10);
    }
  }

  /** Section names of different slots differ. */
  lemma SectionTitlesDistinct(i: nat, j: nat)
    requires i != j
    ensures SectionTitle(i) != SectionTitle(j)
  {
    DecimalRoundTrip(i);
    DecimalRoundTrip(j);
    assert SectionTitle(i)[4..] == Decimal(i);
    assert SectionTitle(j)[4..] == Decimal(j);
  }

  function SectionTitle(i: nat): string {
    "CAR_" + Decimal(i)
  }

  /** A section: its name and its keys in insertion order; a key without a
      value is written on its own, which is how the comment line is produced. */
  datatype Section = Section(title: string, items: seq<(string, Option<string>)>)

  const FreeEntry: string := "Free entry"

  function CommentKey(name: Option<string>): string {
    "; " + OrElse(name, FreeEntry)
  }

  /** The section of slot number i. */
  function Render(i: nat, s: Slot): Section {
    Section(SectionTitle(i), [
      (CommentKey(s.name), None),
      ("MODEL", Some(s.car)),
      ("SKIN", Some(s.skin)),
      ("SPECTATOR_MODE", Some("0")),
      ("DRIVERNAME", Some("")),
      ("TEAM", Some("")),
      ("GUID", Some(OrElse(s.steamUid, ""))),
      ("BALLAST", Some("0")),
      ("RESTRICTOR", Some("0"))])
  }

  /** The value stored under a key: the last assignment wins, as in a dict. */
  function Lookup(items: seq<(string, Option<string>)>, key: string): (r: Option<Option<string>>)
    decreases |items|
    ensures r.None? <==> forall k :: 0 <= k < |items| ==> items[k].0 != key
  {
    if items == [] then None
    else if items[|items| - 1].0 == key then Some(items[|items| - 1].1)
    else Lookup(items[..|items| - 1], key)
  }

  /** Reading a rendered section back gives the slot's car, skin and Steam id,
      and the name (or the free-entry marker) from the comment line. */
  lemma RenderReadBack(i: nat, s: Slot)
    ensures var items := Render(i, s).items;
      && Lookup(items, "MODEL") == Some(Some(s.car))
      && Lookup(items, "SKIN") == Some(Some(s.skin))
      && Lookup(items, "GUID") == Some(Some(OrElse(s.steamUid, "")))
      && items[0].1.None? && items[0].0[2..] == OrElse(s.name, FreeEntry)
  {
    var items := Render(i, s).items;
    LookupLast(items, 1, "MODEL");
    LookupLast(items, 2, "SKIN");
    LookupLast(items, 6, "GUID");
  }

  /** The remaining keys hold the same value in every section. */
  lemma RenderFixedValues(i: nat, s: Slot)
    ensures var items := Render(i, s).items;
      && Lookup(items, "SPECTATOR_MODE") == Some(Some("0"))
      && Lookup(items, "DRIVERNAME") == Some(Some(""))
      && Lookup(items, "TEAM") == Some(Some(""))
      && Lookup(items, "BALLAST") == Some(Some("0"))
      && Lookup(items, "RESTRICTOR") == Some(Some("0"))
  {
    var items := Render(i, s).items;
    LookupLast(items, 3, "SPECTATOR_MODE");
    LookupLast(items, 4, "DRIVERNAME");
    LookupLast(items, 5, "TEAM");
    LookupLast(items, 7, "BALLAST");
    LookupLast(items, 8, "RESTRICTOR");
  }

  /** The value found is the one of the last item with the key. */
  lemma {:induction false} LookupLast(items: seq<(string, Option<string>)>, k: nat, key: string)
    requires k < |items| && items[k].0 == key
    requires forall j :: k < j < |items| ==> items[j].0 != key
    ensures Lookup(items, key) == Some(items[k].1)
    decreases |items|
  {
    if k < |items| - 1 {
      LookupLast(items[..|items| - 1], k, key);
    }
  }

  /** No key occurs twice in a section, so no assignment is lost. */
  lemma RenderKeysDistinct(i: nat, s: Slot)
    ensures Distinct(seq(9, k requires 0 <= k < 9 => Render(i, s).items[k].0))
  {
    assert CommentKey(s.name)[0] == ';';
  }

  datatype ListError = TooManyRacers | NoSkin(PoolError)

  /** The slots in the order they are written: racers padded with free
      entries, racers with a Steam id moved to the back. */
  function Ordered(racers: seq<Entry>, slots: nat): (r: seq<Entry>)
    requires |racers| <= slots
    ensures |r| == slots
    ensures multiset(r) == multiset(racers) + multiset(seq(slots - |racers|, _ => Blank))
  {
    AssignedToBack(racers + seq(slots - |racers|, _ => Blank))
  }

  /** The filled slots of print_entry_list_ini. */
  function FillList(racers: seq<Entry>, slots: int, base: BaseSkins, cars: seq<string>, choices: seq<SlotChoice>): (r: Result<seq<Step>, ListError>)
    ensures r.Failure? && r.error == TooManyRacers <==> |racers| > slots
    ensures r.Success? ==> |r.value| == slots
  {
    if |racers| > slots then Failure(TooManyRacers)
    else
      var ordered := Ordered(racers, slots);
      match FillSteps(ordered, UnassignedSkins(base, ordered), base, cars, choices)
      case Failure(e) => Failure(NoSkin(e))
      case Success(steps) => Success(steps)
  }

  /** Padding and reordering keep every car that needs a drawn skin drawable. */
  lemma OrderedDrawable(racers: seq<Entry>, slots: nat, base: BaseSkins)
    requires |racers| <= slots && EntriesDrawable(racers, base)
    ensures EntriesDrawable(Ordered(racers, slots), base)
  {
    var ordered := Ordered(racers, slots);
    var blanks := seq(slots - |racers|, _ => Blank);
    forall k | 0 <= k < |ordered| && Present(ordered[k].car) && !Present(ordered[k].skin)
      ensures CanDraw(ordered[k].car.value, base)
    {
      var e := ordered[k];
      assert e in multiset(ordered);
      assert e in multiset(racers) + multiset(blanks);
      assert e in racers;
      var j :| 0 <= j < |racers| && racers[j] == e;
    }
  }

  /** With no more racers than slots, and a base skin for every car the slots
      can end up with, the fill succeeds with one filled slot per slot, whatever
      the random outcomes. */
  lemma FillListSucceeds(racers: seq<Entry>, slots: int, base: BaseSkins, cars: seq<string>, choices: seq<SlotChoice>)
    requires |racers| <= slots
    requires CarsDrawable(cars, base) && EntriesDrawable(racers, base)
    ensures FillList(racers, slots, base, cars, choices).Success?
    ensures |FillList(racers, slots, base, cars, choices).value| == slots
  {
    var ordered := Ordered(racers, slots);
    OrderedDrawable(racers, slots, base);
    FillStepsSucceeds(ordered, UnassignedSkins(base, ordered), base, cars, choices);
  }

  /** print_entry_list_ini: one section per slot, named CAR_0, CAR_1, ... */
  function PrintEntryList(racers: seq<Entry>, slots: int, base: BaseSkins, cars: seq<string>, choices: seq<SlotChoice>): (r: Result<seq<Section>, ListError>)
    ensures r.Failure? <==> FillList(racers, slots, base, cars, choices).Failure?
    ensures r.Success? ==> |r.value| == slots && forall i :: 0 <= i < |r.value| ==> r.value[i].title == SectionTitle(i)
  {
    var steps :- FillList(racers, slots, base, cars, choices);
    Success(RenderAll(steps))
  }

  /** One section per step, numbered from zero. */
  function RenderAll(steps: seq<Step>): (r: seq<Section>)
    ensures |r| == |steps|
    ensures forall i :: 0 <= i < |r| ==> r[i] == Render(i, steps[i].slot)
  {
    seq(|steps|, i requires 0 <= i < |steps| => Render(i, steps[i].slot))
  }

  /** The unassigned pools start inside the base skins and without repetition. */
  lemma InitialPoolsWithin(base: BaseSkins, entries: seq<Entry>)
    ensures PoolsWithin(UnassignedSkins(base, entries), base)
  {
  }

  /** Within one entry list, no two slots of the same car got the same skin
      from the free pool. */
  lemma NoRepeatedPooledSkin(racers: seq<Entry>, slots: int, base: BaseSkins, cars: seq<string>, choices: seq<SlotChoice>, i: nat, j: nat)
    requires FillList(racers, slots, base, cars, choices).Success?
    requires var steps := FillList(racers, slots, base, cars, choices).value;
      && i < j < |steps| && steps[i].slot.source == Pooled && steps[j].slot.source == Pooled
      && steps[i].slot.car == steps[j].slot.car
    ensures var steps := FillList(racers, slots, base, cars, choices).value; steps[i].slot.skin != steps[j].slot.skin
  {
    var ordered := Ordered(racers, slots);
    InitialPoolsWithin(base, ordered);
    PooledDistinct(UnassignedSkins(base, ordered), base, FillList(racers, slots, base, cars, choices).value, i, j);
  }

  /** A skin drawn from the pool is never one a racer explicitly asked for on that car. */
  lemma PooledSkinNotRequested(racers: seq<Entry>, slots: int, base: BaseSkins, cars: seq<string>, choices: seq<SlotChoice>, i: nat)
    requires FillList(racers, slots, base, cars, choices).Success?
    requires var steps := FillList(racers, slots, base, cars, choices).value;
      i < |steps| && steps[i].slot.source == Pooled
    ensures var s := FillList(racers, slots, base, cars, choices).value[i].slot;
      s.skin !in Explicit(Ordered(racers, slots), s.car) && s.car in base && s.skin in base[s.car]
  {
    var ordered := Ordered(racers, slots);
    var steps := FillList(racers, slots, base, cars, choices).value;
    InitialPoolsWithin(base, ordered);
    PooledFromPool(UnassignedSkins(base, ordered), base, steps, i);
  }

  /** A slot falls back to an arbitrary base skin only when every skin of its car
      was explicitly requested or already drawn by an earlier slot. */
  lemma FallbackOnlyWhenAllUsed(racers: seq<Entry>, slots: int, base: BaseSkins, cars: seq<string>, choices: seq<SlotChoice>, i: nat, skin: string)
    requires FillList(racers, slots, base, cars, choices).Success?
    requires var steps := FillList(racers, slots, base, cars, choices).value;
      && i < |steps| && steps[i].slot.source == Fallback
      && steps[i].slot.car in base && skin in base[steps[i].slot.car]
    ensures var steps := FillList(racers, slots, base, cars, choices).value;
      var car := steps[i].slot.car;
      || skin in Explicit(Ordered(racers, slots), car)
      || exists k :: 0 <= k < i && steps[k].slot.source == Pooled && steps[k].slot.car == car && steps[k].slot.skin == skin
  {
    var ordered := Ordered(racers, slots);
    var steps := FillList(racers, slots, base, cars, choices).value;
    var pools := UnassignedSkins(base, ordered);
    InitialPoolsWithin(base, ordered);
    if skin !in Explicit(ordered, steps[i].slot.car) {
      FallbackExhausted(pools, base, steps, i, skin);
    }
  }

  /** Padding and reordering keep the requested skins valid. */
  lemma OrderedRequestsValid(racers: seq<Entry>, slots: nat, base: BaseSkins)
    requires |racers| <= slots && RequestsValid(racers, base)
    ensures RequestsValid(Ordered(racers, slots), base)
  {
    var ordered := Ordered(racers, slots);
    var blanks := seq(slots - |racers|, _ => Blank);
    forall k | 0 <= k < |ordered| && Present(ordered[k].skin)
      ensures Present(ordered[k].car) && ordered[k].car.value in base && ordered[k].skin.value in base[ordered[k].car.value]
    {
      var e := ordered[k];
      assert e in multiset(ordered);
      assert e in multiset(racers) + multiset(blanks);
    }
  }

  /** Every slot's skin belongs to its car, provided every explicitly requested
      skin does. */
  lemma SkinsBelongToCars(racers: seq<Entry>, slots: int, base: BaseSkins, cars: seq<string>, choices: seq<SlotChoice>)
    requires RequestsValid(racers, base)
    requires FillList(racers, slots, base, cars, choices).Success?
    ensures var steps := FillList(racers, slots, base, cars, choices).value;
      forall i :: 0 <= i < |steps| ==> steps[i].slot.car in base && steps[i].slot.skin in base[steps[i].slot.car]
  {
    var ordered := Ordered(racers, slots);
    var steps := FillList(racers, slots, base, cars, choices).value;
    InitialPoolsWithin(base, ordered);
    OrderedRequestsValid(racers, slots, base);
    forall i | 0 <= i < |steps| ensures steps[i].slot.car in base && steps[i].slot.skin in base[steps[i].slot.car] {
      assert Fits(ordered[i], steps[i].slot, cars);
      assert SkinOfCar(steps[i].slot, base);
    }
  }

  /** Slots with a Steam id come after every slot without one. */
  lemma BoundSlotsLast(racers: seq<Entry>, slots: int, base: BaseSkins, cars: seq<string>, choices: seq<SlotChoice>, i: nat, j: nat)
    requires FillList(racers, slots, base, cars, choices).Success?
    requires var steps := FillList(racers, slots, base, cars, choices).value;
      i < j < |steps| && Present(steps[i].slot.steamUid)
    ensures Present(FillList(racers, slots, base, cars, choices).value[j].slot.steamUid)
  {
  }
}
