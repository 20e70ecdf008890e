# actools core, modelled in Dafny

This project models five command-line helpers for running Assetto Corsa race
servers and editing replays and setups. Each is written as pure functions over
immutable values, with the properties they promise stated as contracts and
lemmas.

- **Entry-list generator** (`generate.dfy` and the modules it imports):
  - Builds the car catalogue: nicknames to canonical car ids, all cars, the
    less popular cars, and the biased draw list.
  - Reads a human-readable roster, or makes a practice grid that cycles through
    a shuffled car list.
  - Rejects duplicate roster ids.
  - Merges optional per-racer skin preferences.
  - Pads the grid with free entries and moves Steam-bound racers to the back.
  - Fills in missing cars and skins from per-car pools of skins nobody asked
    for, and renders one `CAR_<n>` section per slot.
- **Replay weather rewriter** (`change_weather.dfy`): rewrites the 16-byte
  header's length byte and the weather name, then copies the frames.
- **Replay skin patcher** (`change_skin.dfy`, `byte_replace.dfy`): overwrites
  the length byte four bytes before the first occurrence of the old skin name,
  then replaces every occurrence with Python's `bytearray` semantics.
- **Setup copier** (`change_setup.dfy`): copies the `VALUE` of a fixed table of
  sections, grouped by change type, from a reference setup into each target
  setup.
- **Sun-angle helper** (`sun_angle.dfy`): converts a time of day into the
  simulator's sun angle.

How the model handles the outside world:

- Randomness is an explicit input. These are:
  - the index `random.choice` picks;
  - the element `set.pop` yields;
  - the draws of `random.sample`.
- Files are values that have already been read:
  - replays as byte sequences (`Bytes.Byte` is a byte, 0 to 255);
  - setups as maps from section to key to value;
  - the roster as lines paired with their pattern matches;
  - preference lines as whitespace-split tokens.
- Each Python exception or Rust I/O error becomes a `Failure` value that
  names it.

## Model

| member | source | states |
|---|---|---|
| SunAngle.AngleOfOffset | src/bin/sun_angle_by_time.py:12-14 | the angle is 4/15 of the minute offset from 13:00, truncated toward zero: bounded from both sides, for positive and negative offsets |
| SunAngle.Angle | src/bin/sun_angle_by_time.py:12-14 | for hours:minutes, the printed angle lies within one step of 4/15 of the offset from 13:00, rounded toward zero |
| SunAngle.IntegerMatchesReal | src/bin/sun_angle_by_time.py:14 | the integer model equals `int((t / 30) * 8)` evaluated over exact reals, for every offset |
| SunAngle.ReferenceTimes | src/bin/sun_angle_by_time.py:3-4 | 08:00 gives -80, 16:30 gives 56, 18:00 gives 80, 13:00 gives 0 |
| SunAngle.QuarterHourExact | src/bin/sun_angle_by_time.py:12-14 | at a multiple of 15 minutes the angle is exactly 4/15 of the offset |
| SunAngle.Monotonic | src/bin/sun_angle_by_time.py:12-14 | a later time never gives a smaller angle |
| SunAngle.WorkingDayRange | src/bin/sun_angle_by_time.py:3-14 | every time from 08:00 to 18:00 gives an angle in [-80, 80] |
| ChangeWeather.RewriteWeather | src/bin/change_weather.rs:35-70 | fails exactly when the replay is shorter than the 16-byte header; otherwise it yields header bytes 0-11 unchanged, the new length byte, header bytes 13-15 unchanged, the new name, then the old frames |
| ChangeWeather.ReadWeather | src/bin/change_weather.rs:7-8 | a name can be read back exactly when the replay holds the 16-byte header and as many bytes after it as byte 12 says; the name is those bytes |
| ChangeWeather.RewriteThenRead | src/bin/change_weather.rs:35-59 | a name of at most 255 bytes reads back unchanged from the output, and the output's frames are the input's frames |
| ChangeWeather.RewriteLength | src/bin/change_weather.rs:35-59 | whatever the new name's length, the output's length is the input's length, minus the old name's length, plus the new name's length |
| ChangeWeather.RewriteSameWeather | src/bin/change_weather.rs:35-59 | rewriting with the name already present returns the replay unchanged |
| ChangeWeather.RewriteTwice | src/bin/change_weather.rs:35-59 | rewriting twice equals one rewrite with the second name, provided the first fits a byte |
| ChangeSkin.PythonIndex | src/bin/change_skin.py:35-36 | an index is valid exactly in [-size, size); a negative index counts from the end |
| ChangeSkin.PatchLengthByte | src/bin/change_skin.py:34-36 | fails with not-found exactly when the old name is absent, with a range error for a new name over 255 bytes, and with an index error when the position four before the first occurrence lies outside the buffer; on success only the byte four before the first occurrence changes, and it holds the new name's length |
| ChangeSkin.ChangeSkin | src/bin/change_skin.py:34-37 | the whole patch fails exactly when the length patch fails, and with that patch's error: not-found when the old name is absent, the range error for a new name over 255 bytes, the index error for a length byte outside the buffer |
| ChangeSkin.ChangeSkinShape | src/bin/change_skin.py:34-37 | the output is the patched buffer with every greedy occurrence of the old name replaced and other bytes kept; its length changes by the difference in name lengths per occurrence |
| ChangeSkin.OtherPrefixesKept | src/bin/change_skin.py:34-36 | length bytes in front of occurrences other than the first are not touched |
| ChangeSkin.ChangeSkinToItself | src/bin/change_skin.py:34-37 | renaming a skin to itself, when its length byte is already right, returns the data unchanged; this includes a first occurrence in bytes 0-3, whose length byte is the wrapped one at the end of the buffer |
| ByteReplace.FindFrom | src/bin/change_skin.py:34 | the result is an occurrence with none before it, or None when there is no occurrence at all; `Find` (bytearray.index) is this search from position 0 |
| ByteReplace.MatchesFrom | src/bin/change_skin.py:37 | the rewritten occurrences do not overlap and lie inside the buffer |
| ByteReplace.MatchesOccur | src/bin/change_skin.py:37 | every rewritten position holds an occurrence |
| ByteReplace.MatchesGreedy | src/bin/change_skin.py:37 | an occurrence that is not rewritten overlaps an earlier rewritten one |
| ByteReplace.MatchesStartAtFind | src/bin/change_skin.py:34-37 | the first rewritten occurrence is the one `index` finds; there is none exactly when `index` fails |
| ByteReplace.ReplaceIsSplice | src/bin/change_skin.py:37 | `ReplaceAll` (bytearray.replace) equals the independent splice description: other bytes kept in place, the new name at each rewritten occurrence |
| ByteReplace.ReplaceAllLength | src/bin/change_skin.py:37 | each replaced occurrence changes the length by the difference in lengths, including for an empty pattern |
| ByteReplace.ReplaceAllSame | src/bin/change_skin.py:37 | replacing a pattern with itself is the identity |
| ByteReplace.ReplaceAllAbsent | src/bin/change_skin.py:37 | a non-empty pattern that does not occur leaves the data unchanged |
| ChangeSetup.FieldTableShape | src/bin/change_setup.py:10-14 | gears are INTERNAL_GEAR_1 to INTERNAL_GEAR_9 then FINAL_RATIO; the groups have 10, 5 and 2 sections; no section is in two groups |
| ChangeSetup.Copied | src/bin/change_setup.py:36-39 | the reference copy keeps exactly the target's sections |
| ChangeSetup.CopyField | src/bin/change_setup.py:38-39 | one field copies without KeyError exactly when it is copyable, and the result equals the reference copy |
| ChangeSetup.CopiedCompose | src/bin/change_setup.py:36-39 | copying section set A then B equals copying A + B, and copyability of B does not depend on A being done first |
| ChangeSetup.CopyFieldsMeaning | src/bin/change_setup.py:37-39 | the inner loop `CopyFields` succeeds exactly when every listed section is copyable, and then equals the reference copy |
| ChangeSetup.CopyTypesMeaning | src/bin/change_setup.py:36-39 | the outer loop `CopyTypes` succeeds exactly when every change type is known and the selected sections are copyable; the result is the reference copy of the selected sections |
| ChangeSetup.CopyEffect | src/bin/change_setup.py:36-39 | selected sections present in the input get its VALUE; every other section and key is unchanged; no key other than VALUE appears |
| ChangeSetup.CopyIdempotent | src/bin/change_setup.py:36-39 | copying again into the output changes nothing |
| ChangeSetup.CopyOrderIrrelevant | src/bin/change_setup.py:36-39 | only the set of requested change types matters, not their order or repetition |
| ChangeSetup.CopyToAll | src/bin/change_setup.py:31-42 | every target before the first failing one is written with its own copy result; the run stops at the first failure, with that target's error |
| CarCatalog.AddNicknames | src/bin/entry_list/generate_entry_list.py:31-32 | the table gains exactly the lower-cased nicknames, each mapped to the model; other entries are kept |
| CarCatalog.Populate | src/bin/entry_list/generate_entry_list.py:29-34 | a registration appends the model to the car list, to the less popular list only when flagged, and adds its nicknames |
| CarCatalog.Build | src/bin/entry_list/generate_entry_list.py:37-49 | the car list holds the registered models, in registration order |
| CarCatalog.BuildLessPopular | src/bin/entry_list/generate_entry_list.py:33-34 | a car is less popular exactly when one of its registrations is flagged |
| CarCatalog.BuildNicknameKeys | src/bin/entry_list/generate_entry_list.py:29-49 | the nickname table's keys are exactly the registered nicknames, lower-cased |
| CarCatalog.BuildNicknameOwner | src/bin/entry_list/generate_entry_list.py:29-49 | a nickname maps to the model of the last registration listing it |
| CarCatalog.BuildNicknameTargets | src/bin/entry_list/generate_entry_list.py:29-49 | every nickname maps to a registered model |
| CarCatalog.BiasedMultiplicity | src/bin/entry_list/generate_entry_list.py:52-57 | for distinct cars, the draw list `Biased` (_get_biased_cars) holds a less popular car once, any other car twice, and nothing else |
| CarCatalog.BiasedLength | src/bin/entry_list/generate_entry_list.py:52-60 | the draw list has two entries per car, minus one per less popular car |
| CarCatalog.AllCarsFacts | src/bin/entry_list/generate_entry_list.py:37-49 | there are nine distinct built-in cars; only the seventh, the Mercedes, is less popular |
| CarCatalog.NoEmptyCar | src/bin/entry_list/generate_entry_list.py:37-49 | no car id is empty |
| CarCatalog.BiasedCarsMultiplicity | src/bin/entry_list/generate_entry_list.py:52-60 | BIASED_CARS holds exactly the known cars, the less popular ones once and the others twice |
| CarCatalog.BiasedCarsLength | src/bin/entry_list/generate_entry_list.py:52-60 | BIASED_CARS has 17 entries |
| CarCatalog.ResolvesToKnownCar | src/bin/entry_list/generate_entry_list.py:65-73 | a resolved nickname is always one of the known cars |
| CarCatalog.ResolveIgnoresCase | src/bin/entry_list/generate_entry_list.py:66-69 | inputs that differ only in case resolve alike |
| CarCatalog.ResolvesNickname | src/bin/entry_list/generate_entry_list.py:69-71 | a registered nickname, in any case, resolves to the car that registered it last |
| CarCatalog.ResolvesCanonicalId | src/bin/entry_list/generate_entry_list.py:72-73 | a canonical car id resolves to itself |
| CarCatalog.ResolvesNothing | src/bin/entry_list/generate_entry_list.py:65-73 | `CarFromNickname` (get_car_from_nickname, `Resolve` on the built-in catalogue) fails exactly for the empty string and for text that, lower-cased, is neither a nickname nor a car id |
| Roster.StripMeaning | src/bin/entry_list/generate_entry_list.py:96 | the stripped text is a slice of the input with only whitespace cut from either end, and it neither starts nor ends with whitespace |
| Roster.ParsedEntryShape | src/bin/entry_list/generate_entry_list.py:95-105 | an entry parsed by `EntryFromMatches` (entry_from_human_readable) has no skin and no Steam id; it has no car exactly for "tbd", and otherwise a known car |
| Roster.TbdAccepted | src/bin/entry_list/generate_entry_list.py:96-99 | "tbd", in any case and with surrounding whitespace, never fails and leaves the car open |
| Roster.NicknameDecidesCar | src/bin/entry_list/generate_entry_list.py:98-105 | for a nickname other than "tbd", the line parses exactly when the nickname resolves; the entry then has the resolved car, and otherwise the error is an unknown nickname naming the stripped, lower-cased text |
| Roster.ParseRosterMeaning | src/bin/entry_list/generate_entry_list.py:280 | the list comprehension `ParseRoster` holds each line's entry in order; a failure is the error of the first bad line |
| Roster.ParsedRosterShape | src/bin/entry_list/generate_entry_list.py:278-282 | parsed racers have no skin or Steam id, and any car they have is known |
| Roster.RdUids | src/bin/entry_list/generate_entry_list.py:284 | the list holds exactly the roster ids that are present |
| Roster.DistinctIffSetSize | src/bin/entry_list/generate_entry_list.py:285 | the set of ids is as large as the list exactly when no id repeats |
| Roster.RdUidsDistinct | src/bin/entry_list/generate_entry_list.py:284-286 | the present roster ids are distinct exactly when no two entries share one |
| Roster.CheckUniqueRdUids | src/bin/entry_list/generate_entry_list.py:284-286 | the duplicate check fails exactly when two entries share a roster id, and otherwise passes the racers on unchanged |
| SkinPreferences.ParsePreferences | src/bin/entry_list/generate_entry_list.py:114-116 | parsing succeeds exactly when every line has four tokens, and then holds each line's row in order |
| SkinPreferences.BuildTable | src/bin/entry_list/generate_entry_list.py:114-117 | the skin and Steam tables have the same roster ids, and no id has an empty car table |
| SkinPreferences.SteamTableMeaning | src/bin/entry_list/generate_entry_list.py:114-117 | a roster id's Steam id is the one on its last row, whatever that row's car |
| SkinPreferences.SkinTableMeaning | src/bin/entry_list/generate_entry_list.py:114-116 | the skin for a roster id and car is the one on the last row naming both |
| SkinPreferences.MergeAll | src/bin/entry_list/generate_entry_list.py:119-131 | a success merges every racer in order; a failure is the error of the first racer whose merge fails |
| SkinPreferences.Merge | src/bin/entry_list/generate_entry_list.py:108-131 | merging keeps the number of racers, and a line without exactly four tokens fails the merge |
| SkinPreferences.MergeEntryShape | src/bin/entry_list/generate_entry_list.py:119-131 | merging one racer (`MergeEntry`) changes only the skin and the Steam id; a skin it sets is one the racer's car ships with |
| SkinPreferences.PreferenceWins | src/bin/entry_list/generate_entry_list.py:119-131 | a valid last preference for the racer's id and car sets its skin; the Steam id comes from the id's last row |
| SkinPreferences.UnknownSkinRejected | src/bin/entry_list/generate_entry_list.py:124-129 | a preferred skin the car does not ship with is an error |
| SkinPreferences.NoPreferenceUnchanged | src/bin/entry_list/generate_entry_list.py:119-122 | a racer with no row for its id and car is left as it is |
| SkinPreferences.MergeRequestsValid | src/bin/entry_list/generate_entry_list.py:119-131 | for skinless racers, every skin the merge sets is present and belongs to the racer's car |
| SkinPreferences.MergeEntryIdempotent | src/bin/entry_list/generate_entry_list.py:119-131 | merging a merged racer again changes nothing |
| SkinPreferences.MergeAllIdempotent | src/bin/entry_list/generate_entry_list.py:119-131 | merging the same rows into merged racers again changes nothing |
| EntryFill.BySteam | src/bin/entry_list/generate_entry_list.py:143-144 | the filter keeps only entries whose Steam id presence matches the flag |
| EntryFill.BySteamContents | src/bin/entry_list/generate_entry_list.py:143-144 | the filter keeps every matching entry with its multiplicity and drops every other entry |
| EntryFill.AssignedToBack | src/bin/entry_list/generate_entry_list.py:134-145 | the result is a permutation of the input with every entry lacking a Steam id before every entry that has one |
| EntryFill.AssignedToBackStable | src/bin/entry_list/generate_entry_list.py:143-145 | within each group the original order is kept |
| EntryFill.AssignedToBackIdempotent | src/bin/entry_list/generate_entry_list.py:134-145 | reordering twice equals reordering once |
| EntryFill.FillOne | src/bin/entry_list/generate_entry_list.py:186-191 | a slot keeps the racer's own car and skin when present; otherwise the car comes from the draw list and the skin from the pool or a fallback. Pools only shrink. A fill fails exactly when a car has to be chosen from an empty list, or when a skin has to be drawn and the slot's car has neither a free skin nor a base skin to fall back on |
| EntryFill.FillSteps | src/bin/entry_list/generate_entry_list.py:186-203 | one step per entry, each fitting its entry, each starting from the pools the previous one left |
| EntryFill.FillStepsSucceeds | src/bin/entry_list/generate_entry_list.py:186-191 | the loop never fails when the car list is non-empty and every car a slot can get has a base skin, whatever the pools and random outcomes |
| EntryFill.PooledFromPool | src/bin/entry_list/generate_entry_list.py:184-191 | a skin taken from the pool was free in the pools the loop started with |
| EntryFill.PooledDistinct | src/bin/entry_list/generate_entry_list.py:213-222 | two slots of one car that drew from the pool got different skins |
| EntryFill.FallbackExhausted | src/bin/entry_list/generate_entry_list.py:221-227 | a slot falls back only after every skin free for its car was drawn by an earlier slot |
| SkinPool.UnassignedSkins | src/bin/entry_list/generate_entry_list.py:148-169 | each car's pool holds exactly its base skins that no racer asked for on that car, without repetition |
| SkinPool.Draw | src/bin/entry_list/generate_entry_list.py:213-227 | a non-empty pool yields one of its skins and loses exactly that skin; an empty pool falls back to a base skin and leaves the pools alone, failing only when the car has no base skins |
| SkinPool.DrawRemovesSkin | src/bin/entry_list/generate_entry_list.py:221-222 | after a pooled draw the pools still have no repetition, and the car's pool is the old one without the drawn skin |
| EntryListIni.Decimal | src/bin/entry_list/generate_entry_list.py:193 | the slot number is written as non-empty decimal digits without a leading zero |
| EntryListIni.DecimalRoundTrip | src/bin/entry_list/generate_entry_list.py:193 | reading the digits back gives the number |
| EntryListIni.SectionTitlesDistinct | src/bin/entry_list/generate_entry_list.py:193-194 | different slots get different section names |
| EntryListIni.Lookup | src/bin/entry_list/generate_entry_list.py:194-203 | a key is found exactly when some item carries it |
| EntryListIni.RenderReadBack | src/bin/entry_list/generate_entry_list.py:195-201 | reading a section written by `Render` back gives the slot's car, skin and Steam id (or ""), and a value-less comment with the name (or "Free entry") |
| EntryListIni.RenderFixedValues | src/bin/entry_list/generate_entry_list.py:198-203 | every section has SPECTATOR_MODE 0, an empty DRIVERNAME and TEAM, and BALLAST and RESTRICTOR 0 |
| EntryListIni.RenderKeysDistinct | src/bin/entry_list/generate_entry_list.py:195-203 | the nine keys of a section are distinct, so no assignment is lost |
| EntryListIni.Ordered | src/bin/entry_list/generate_entry_list.py:179-182 | the ordered grid has exactly `slots` entries: the racers plus blank padding, as a multiset |
| EntryListIni.FillList | src/bin/entry_list/generate_entry_list.py:176-191 | too many racers is an error exactly when racers exceed slots; a successful fill has one filled slot per slot |
| EntryListIni.FillListSucceeds | src/bin/entry_list/generate_entry_list.py:172-191 | with no more racers than slots and a base skin for every car the slots can get, the fill succeeds with exactly `slots` filled slots |
| EntryListIni.PrintEntryList | src/bin/entry_list/generate_entry_list.py:172-205 | printing fails exactly when filling fails; otherwise there is one section per slot, named CAR_0, CAR_1 and so on |
| EntryListIni.InitialPoolsWithin | src/bin/entry_list/generate_entry_list.py:184 | the starting pools hold only the car's own base skins, without repetition |
| EntryListIni.NoRepeatedPooledSkin | src/bin/entry_list/generate_entry_list.py:184-191 | within one entry list, no two slots of a car get the same skin from the pool |
| EntryListIni.PooledSkinNotRequested | src/bin/entry_list/generate_entry_list.py:184-191 | a pooled skin is a base skin of the car that no racer explicitly asked for on it |
| EntryListIni.FallbackOnlyWhenAllUsed | src/bin/entry_list/generate_entry_list.py:184-191 | a slot falls back only when every base skin of its car was requested or already drawn earlier |
| EntryListIni.OrderedRequestsValid | src/bin/entry_list/generate_entry_list.py:179-182 | padding and reordering keep every requested skin valid for its car |
| EntryListIni.SkinsBelongToCars | src/bin/entry_list/generate_entry_list.py:186-191 | if every requested skin is valid, every slot's car is known and its skin is one the car ships with |
| EntryListIni.BoundSlotsLast | src/bin/entry_list/generate_entry_list.py:182 | slots with a Steam id come after every slot without one |
| Practice.Shuffle | src/bin/entry_list/generate_entry_list.py:242 | the sample has the population's length |
| Practice.ShufflePermutes | src/bin/entry_list/generate_entry_list.py:242 | the sample is a permutation of the population |
| Practice.PracticeCars | src/bin/entry_list/generate_entry_list.py:237-240 | the list that is cycled over is never empty |
| Practice.PracticeCarsFacts | src/bin/entry_list/generate_entry_list.py:237-240 | the cycled list holds exactly the known cars; it is ALL_CARS, each car once, when slots are fewer than the 17 entries of BIASED_CARS, and BIASED_CARS from 17 slots on |
| Practice.PracticeEntries | src/bin/entry_list/generate_entry_list.py:230-251 | the practice grid has exactly `slots` entries (none for a negative count) |
| Practice.CycleCovers | src/bin/entry_list/generate_entry_list.py:246-249 | cycling at least as many entries as cars covers every car |
| Practice.CycleDistinct | src/bin/entry_list/generate_entry_list.py:246-249 | cycling a repetition-free list no further than its length repeats no car |
| Practice.PracticeCarsKnown | src/bin/entry_list/generate_entry_list.py:230-251 | every practice entry has a known car and nothing else |
| Practice.EveryCarPresent | src/bin/entry_list/generate_entry_list.py:230-251 | with at least nine slots every car is on the grid, whatever the shuffle |
| Practice.NoCarTwice | src/bin/entry_list/generate_entry_list.py:237-251 | with at most nine slots no car appears twice, whatever the shuffle |
| Generate.Racers | src/bin/entry_list/generate_entry_list.py:278-282 | the racers, from the roster or the practice grid, have no skins yet |
| Generate.RacerCarsKnown | src/bin/entry_list/generate_entry_list.py:278-282 | a racer's car, from the roster or the practice grid, is always one of ALL_CARS |
| Generate.MergeKeepsCars | src/bin/entry_list/generate_entry_list.py:288-290 | merging skin preferences never changes a racer's car |
| Generate.GenerateSlots | src/bin/entry_list/generate_entry_list.py:254-292 | a successful run fills exactly `slots` slots; `Generate.GenerateSucceeds` states the inputs for which it succeeds |
| Generate.Generate | src/bin/entry_list/generate_entry_list.py:254-292 | a successful run prints one section per slot, named CAR_0 upward; `Generate.GenerateSucceeds` states the inputs for which it succeeds |
| Generate.GenerateSucceeds | src/bin/entry_list/generate_entry_list.py:275-292 | the run succeeds with one section per slot when the base table has a skin for each known car, the roster parses without repeated ids (or is absent), the preferences merge (or are absent), and racers do not exceed slots |
| Generate.BaseSkinsMustMatch | src/bin/entry_list/generate_entry_list.py:208-210 | a base-skin table whose cars differ from the known cars stops the run |
| Generate.DuplicateRosterIdRejected | src/bin/entry_list/generate_entry_list.py:284-286 | a roster with a repeated roster id stops the run with the duplicate error |
| Generate.MergedSkinsKnown | src/bin/entry_list/generate_entry_list.py:288-290 | after the merge, every racer with a skin has a known car that ships with that skin |
| Generate.GeneratedSkinsKnown | src/bin/entry_list/generate_entry_list.py:275-292 | every generated slot has a known, non-empty car and a skin that car ships with |

## Left out

- Argument parsing, usage messages and exit codes of all five tools are not modelled.
- Opening, reading and writing files are not modelled. Inputs are values that
  have already been read, and outputs are the values that would be written.
- Rust I/O errors other than a short read are not modelled, and neither are
  partially written outputs.
- The roster-line regular expression is not modelled. Each line comes with the
  list of matches `findall` returns (roster id, name, car text), so the
  "exactly one match" check is modelled but the pattern itself is not.
- Splitting a preference line on whitespace is not modelled: lines arrive as
  token lists.
- The setup copier's comma split of its first argument is not modelled: change
  types arrive as a list.
- JSON loading of the base skins, the nickname lookup cache and the stderr
  message printed when skins overlap are not modelled.
- configparser is not modelled. This leaves out:
  - reading and serialising files;
  - the DEFAULT section;
  - the order in which it keeps sections and keys;
  - its check that a value set on a section holds no `%`.

  Setups are maps, and the printed entry list is a list of sections.
- The order in which `set.pop` yields elements is not modelled. A pool is a
  repetition-free sequence, and which element is popped is a random input.
- `random.sample` is modelled only on its pool path (draw an index, move the
  last element in). Its set-based path is not modelled.
- `EntryFill.FillOne` takes the car list as a parameter, and the generator
  passes it BIASED_CARS.
- `SunAngle.AngleOfOffset` uses exact arithmetic. CPython's floats agree for
  every offset below 2^51 minutes; larger offsets are not modelled.
- `CarCatalog.Lower`: lower-casing follows ASCII rules only, including on the
  car text users type in the roster and the preference lines. Python also
  lower-cases some non-ASCII letters to ASCII ones; for example U+212A KELVIN
  SIGN becomes `k`. Such inputs resolve in the source but are rejected as
  unknown nicknames by the model.
- `ChangeWeather.RewriteThenRead`: the read-back is stated only for names of at
  most 255 bytes. Longer names get their length byte wrapped modulo 256
  (`ChangeWeather.LengthByte`), as in the source.
- `ChangeSkin.ChangeSkinShape`: stated for a non-empty old name only. The empty
  name is covered by `ByteReplace.ReplaceAllLength`.
- `SkinPreferences.PreferenceWins`: the Steam id is stated as the one on the
  roster id's last row whatever its car, because that is how the source fills
  it.
