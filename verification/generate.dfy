/** The entry-list generator end to end: base skins, roster or practice grid,
    duplicate check, optional skin preferences, then the entry list. */
module Generate {
  import opened Wrappers
  import opened Entries
  import opened CarCatalog
  import opened Roster
  import opened SkinPreferences
  import opened SkinPool
  import opened EntryFill
  import opened EntryListIni
  import opened Practice

  /** What the command line and the input files supply, already read, together
      with the outcomes of every random choice. */
  datatype Input = Input(
    slots: int,
    roster: Option<seq<RosterLine>>,
    preferences: Option<seq<seq<string>>>,
    baseSkinsJson: BaseSkins,
    shuffleDraws: seq<nat>,
    choices: seq<SlotChoice>)

  datatype GenerateError =
    | BadBaseSkins
    | BadRoster(rosterError: RosterError)
    | BadPreferences(mergeError: MergeError)
    | BadList(listError: ListError)

  /** The racers before preferences: parsed from the roster when one is given,
      otherwise a practice grid. */
  function Racers(inp: Input): (r: Result<seq<Entry>, GenerateError>)
    ensures r.Success? ==> forall i :: 0 <= i < |r.value| ==> r.value[i].skin.None?
  {
    if inp.roster.Some? then
      match ParseRoster(inp.roster.value)
      case Failure(e) => Failure(BadRoster(e))
      case Success(racers) =>
        ParsedRosterShape(inp.roster.value);
        Success(racers)
    else
      Success(PracticeEntries(inp.slots, inp.shuffleDraws))
  }

  /** The racers after the duplicate check and the preferences. */
  function MergedRacers(inp: Input, base: BaseSkins): (r: Result<seq<Entry>, GenerateError>)
  {
    var racers :- Racers(inp);
    match CheckUniqueRdUids(racers)
    case Failure(e) => Failure(BadRoster(e))
    case Success(_) =>
      if inp.preferences.None? then Success(racers)
      else
        match Merge(racers, inp.preferences.value, base)
        case Failure(e) => Failure(BadPreferences(e))
        case Success(merged) => Success(merged)
  }

  /** The filled slots of the whole run. */
  function GenerateSlots(inp: Input): (r: Result<seq<Step>, GenerateError>)
    ensures r.Success? ==> |r.value| == inp.slots
  {
    var base :- (match LoadBaseSkins(inp.baseSkinsJson)
                 case Failure(_) => Failure(BadBaseSkins)
                 case Success(b) => Success(b));
    var racers :- MergedRacers(inp, base);
    match FillList(racers, inp.slots, base, BiasedCars, inp.choices)
    case Failure(e) => Failure(BadList(e))
    case Success(steps) => Success(steps)
  }

  /** main: the sections of the entry list that is printed. */
  function Generate(inp: Input): (r: Result<seq<Section>, GenerateError>)
    ensures r.Success? ==> |r.value| == inp.slots && forall i :: 0 <= i < |r.value| ==> r.value[i].title == SectionTitle(i)
  {
    var steps :- GenerateSlots(inp);
    Success(RenderAll(steps))
  }

  /** Every racer's car, when it has one, is a known car. */
  lemma RacerCarsKnown(inp: Input)
    requires Racers(inp).Success?
    ensures forall k :: 0 <= k < |Racers(inp).value| && Racers(inp).value[k].car.Some? ==>
              Racers(inp).value[k].car.value in AllCars
  {
    if inp.roster.Some? {
      ParsedRosterShape(inp.roster.value);
    } else {
      forall k | 0 <= k < |Racers(inp).value| {
        PracticeCarsKnown(inp.slots, inp.shuffleDraws, k);
      }
    }
  }

  /** Merging preferences keeps every racer's car. */
  lemma MergeKeepsCars(racers: seq<Entry>, lines: seq<seq<string>>, base: BaseSkins)
    requires Merge(racers, lines, base).Success?
    ensures forall k :: 0 <= k < |racers| ==> Merge(racers, lines, base).value[k].car == racers[k].car
  {
    var t := BuildTable(ParsePreferences(lines).value);
    forall k | 0 <= k < |racers| ensures Merge(racers, lines, base).value[k].car == racers[k].car {
      MergeEntryShape(racers[k], t, base);
    }
  }

  /** A run whose inputs are all well formed prints an entry list: a base table
      keyed by exactly the known cars with a skin for each, a roster that
      parses without repeated roster ids (or none), preferences that merge (or
      none), and no more racers than slots. Then there is one CAR_i section per
      slot, whatever the random outcomes. */
  lemma GenerateSucceeds(inp: Input)
    requires inp.baseSkinsJson.Keys == set c | c in AllCars
    requires forall c :: c in inp.baseSkinsJson ==> |inp.baseSkinsJson[c]| > 0
    requires Racers(inp).Success? && !SharesRdUid(Racers(inp).value)
    requires inp.preferences.Some? ==> Merge(Racers(inp).value, inp.preferences.value, inp.baseSkinsJson).Success?
    requires |Racers(inp).value| <= inp.slots
    ensures Generate(inp).Success? && |Generate(inp).value| == inp.slots
  {
    var base := inp.baseSkinsJson;
    var racers := Racers(inp).value;
    RacerCarsKnown(inp);
    if inp.preferences.Some? {
      MergeKeepsCars(racers, inp.preferences.value, base);
    }
    var merged := MergedRacers(inp, base).value;
    forall k | 0 <= k < |merged| && Present(merged[k].car) && !Present(merged[k].skin)
      ensures CanDraw(merged[k].car.value, base)
    {
      assert merged[k].car == racers[k].car;
    }
    forall i | 0 <= i < |BiasedCars| ensures CanDraw(BiasedCars[i], base) {
      BiasedCarsMultiplicity(BiasedCars[i]);
    }
    BiasedCarsLength();
    FillListSucceeds(merged, inp.slots, base, BiasedCars, inp.choices);
  }

  /** A base-skin table that does not cover exactly the known cars stops the run. */
  lemma BaseSkinsMustMatch(inp: Input)
    requires inp.baseSkinsJson.Keys != set c | c in AllCars
    ensures Generate(inp) == Failure(BadBaseSkins)
  {
  }

  /** Two roster lines with the same roster id stop the run. */
  lemma DuplicateRosterIdRejected(inp: Input)
    requires inp.baseSkinsJson.Keys == set c | c in AllCars
    requires inp.roster.Some? && ParseRoster(inp.roster.value).Success?
    requires SharesRdUid(ParseRoster(inp.roster.value).value)
    ensures Generate(inp) == Failure(BadRoster(DuplicateEntry))
  {
  }

  /** After a successful merge, a racer with a skin has a known car, and the
      skin is one that car ships with. */
  lemma MergedSkinsKnown(inp: Input, base: BaseSkins)
    requires base.Keys == set c | c in AllCars
    requires MergedRacers(inp, base).Success?
    ensures RequestsValid(MergedRacers(inp, base).value, base)
  {
    NoEmptyCar();
    if inp.preferences.Some? {
      MergeRequestsValid(Racers(inp).value, inp.preferences.value, base);
    }
  }

  /** Every slot of a generated entry list has one of the known cars, which is
      never empty, and a skin that car ships with. */
  lemma GeneratedSkinsKnown(inp: Input)
    requires GenerateSlots(inp).Success?
    ensures var steps := GenerateSlots(inp).value;
      forall i :: 0 <= i < |steps| ==>
        && steps[i].slot.car in AllCars && steps[i].slot.car != ""
        && steps[i].slot.skin in inp.baseSkinsJson[steps[i].slot.car]
  {
    var base := inp.baseSkinsJson;
    MergedSkinsKnown(inp, base);
    SkinsBelongToCars(MergedRacers(inp, base).value, inp.slots, base, BiasedCars, inp.choices);
    NoEmptyCar();
  }
}
