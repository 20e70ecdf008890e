/** Merging per-racer skin preferences into the parsed entries. */
module SkinPreferences {
  import opened Wrappers
  import opened CarCatalog
  import opened Entries

  /** One preference row: roster id, Steam id, the car (resolved from its
      nickname; unknown nicknames resolve to None) and the wanted skin. */
  datatype Preference = Preference(rdUid: string, steamUid: string, car: Option<string>, skin: string)

  datatype MergeError =
    | MalformedLine(tokens: seq<string>)
    | NoBaseSkins(car: Option<string>)
    | UnknownSkin(skin: string, car: Option<string>)

  /** Unpacking of one whitespace-split line into four fields. */
  function ParsePreference(tokens: seq<string>): (r: Result<Preference, MergeError>)
    ensures r.Failure? <==> |tokens| != 4
    ensures r.Failure? ==> r.error == MalformedLine(tokens)
    ensures r.Success? ==>
              && r.value.rdUid == tokens[0] && r.value.steamUid == tokens[1] && r.value.skin == tokens[3]
              && r.value.car == CarFromNickname(tokens[2])
  {
    if |tokens| != 4 then Failure(MalformedLine(tokens))
    else Success(Preference(tokens[0], tokens[1], CarFromNickname(tokens[2]), tokens[3]))
  }

  /** The rows, unpacked; the first malformed line stops the run. */
  function ParsePreferences(lines: seq<seq<string>>): (r: Result<seq<Preference>, MergeError>)
    ensures r.Success? <==> forall i :: 0 <= i < |lines| ==> |lines[i]| == 4
    ensures r.Failure? ==> r.error.MalformedLine?
    ensures r.Success? ==>
              && |r.value| == |lines|
              && forall i :: 0 <= i < |lines| ==> ParsePreference(lines[i]) == Success(r.value[i])
  {
    MapUntilErrorMeaning(lines, ParsePreference);
    MapUntilError(lines, ParsePreference)
  }

  /** The two tables built from the rows: roster id to (car to skin), and
      roster id to Steam id. */
  datatype Table = Table(skins: map<string, map<Option<string>, string>>, steam: map<string, string>)

  /** Adding one row; later rows overwrite earlier ones. */
  function AddRow(t: Table, p: Preference): Table {
    var forRacer := if p.rdUid in t.skins then t.skins[p.rdUid] else map[];
    Table(t.skins[p.rdUid := forRacer[p.car := p.skin]], t.steam[p.rdUid := p.steamUid])
  }

  function BuildTable(prefs: seq<Preference>): (t: Table)
    decreases |prefs|
    ensures t.skins.Keys == t.steam.Keys
    ensures forall u :: u in t.skins ==> |t.skins[u]| > 0
  {
    if prefs == [] then Table(map[], map[])
    else AddRow(BuildTable(prefs[..|prefs| - 1]), prefs[|prefs| - 1])
  }

  /** Index of the last row satisfying `matches`, searching from the back. */
  function LastRow(prefs: seq<Preference>, u: string, car: Option<string>, anyCar: bool): (r: Option<nat>)
    decreases |prefs|
    ensures r.Some? ==>
              && r.value < |prefs| && prefs[r.value].rdUid == u && (anyCar || prefs[r.value].car == car)
              && forall k :: r.value < k < |prefs| ==> !(prefs[k].rdUid == u && (anyCar || prefs[k].car == car))
    ensures r.None? ==> forall k :: 0 <= k < |prefs| ==> !(prefs[k].rdUid == u && (anyCar || prefs[k].car == car))
  {
    if prefs == [] then None
    else
      var last := prefs[|prefs| - 1];
      if last.rdUid == u && (anyCar || last.car == car) then Some(|prefs| - 1)
      else LastRow(prefs[..|prefs| - 1], u, car, anyCar)
  }

  /** The Steam table holds, for every roster id, the Steam id of its last row,
      whatever that row's car. */
  lemma {:induction false} SteamTableMeaning(prefs: seq<Preference>, u: string)
    decreases |prefs|
    ensures var t := BuildTable(prefs);
      && (u in t.steam <==> LastRow(prefs, u, None, true).Some?)
      && (u in t.steam ==> t.steam[u] == prefs[LastRow(prefs, u, None, true).value].steamUid)
  {
    if prefs != [] {
      var prefix := prefs[..|prefs| - 1];
      var last := prefs[|prefs| - 1];
      var t0 := BuildTable(prefix);
      SteamTableMeaning(prefix, u);
      assert BuildTable(prefs) == AddRow(t0, last);
      if last.rdUid != u {
        var r0 := LastRow(prefix, u, None, true);
        assert LastRow(prefs, u, None, true) == r0;
        assert r0.Some? ==> prefs[r0.value] == prefix[r0.value];
      }
    }
  }

  /** The skin table holds, for every roster id and car, the skin of the last
      row naming both. */
  lemma {:induction false} SkinTableMeaning(prefs: seq<Preference>, u: string, car: Option<string>)
    decreases |prefs|
    ensures var t := BuildTable(prefs);
      && ((u in t.skins && car in t.skins[u]) <==> LastRow(prefs, u, car, false).Some?)
      && (u in t.skins && car in t.skins[u] ==> t.skins[u][car] == prefs[LastRow(prefs, u, car, false).value].skin)
  {
    if prefs != [] {
      var prefix := prefs[..|prefs| - 1];
      var last := prefs[|prefs| - 1];
      var t0 := BuildTable(prefix);
      SkinTableMeaning(prefix, u, car);
      var t := BuildTable(prefs);
      assert t == AddRow(t0, last);
      if last.rdUid == u && last.car == car {
        assert LastRow(prefs, u, car, false) == Some(|prefs| - 1);
        assert t.skins[u][car] == last.skin;
      } else {
        var r0 := LastRow(prefix, u, car, false);
        assert LastRow(prefs, u, car, false) == r0;
        assert r0.Some? ==> prefs[r0.value] == prefix[r0.value];
        if last.rdUid == u {
          var forRacer := if u in t0.skins then t0.skins[u] else map[];
          assert t.skins[u] == forRacer[last.car := last.skin];
          assert car in t.skins[u] <==> car in forRacer;
        } else {
          assert u in t.skins <==> u in t0.skins;
          assert u in t.skins ==> t.skins[u] == t0.skins[u];
        }
      }
    }
  }

  /** One racer of the merge loop. */
  function MergeEntry(e: Entry, t: Table, base: map<string, seq<string>>): (r: Result<Entry, MergeError>)
    requires t.skins.Keys == t.steam.Keys
  {
    if e.rdUid.None? || e.rdUid.value !in t.skins then Success(e)
    else
      var u := e.rdUid.value;
      var carPrefs := t.skins[u];
      if e.car !in carPrefs || carPrefs[e.car] == "" then Success(e)
      else
        var pref := carPrefs[e.car];
        if e.car.None? || e.car.value !in base then Failure(NoBaseSkins(e.car))
        else if pref !in base[e.car.value] then Failure(UnknownSkin(pref, e.car))
        else Success(e.(skin := Some(pref), steamUid := Some(t.steam[u])))
  }

  function MergeAll(entries: seq<Entry>, t: Table, base: map<string, seq<string>>): (r: Result<seq<Entry>, MergeError>)
    requires t.skins.Keys == t.steam.Keys
    decreases |entries|
    ensures r.Success? ==>
              && |r.value| == |entries|
              && forall i :: 0 <= i < |entries| ==> MergeEntry(entries[i], t, base) == Success(r.value[i])
    ensures r.Failure? ==>
              exists i ::
                && 0 <= i < |entries| && MergeEntry(entries[i], t, base) == Failure(r.error)
                && forall j :: 0 <= j < i ==> MergeEntry(entries[j], t, base).Success?
  {
    if entries == [] then Success([])
    else
      var e :- MergeEntry(entries[0], t, base);
      var rest :- MergeAll(entries[1..], t, base);
      assert forall i :: 1 <= i < |entries| ==> entries[i] == entries[1..][i - 1];
      Success([e] + rest)
  }

  /** merge_entries_with_skin_data: parse every row, then update the racers. */
  function Merge(entries: seq<Entry>, lines: seq<seq<string>>, base: map<string, seq<string>>): (r: Result<seq<Entry>, MergeError>)
    ensures r.Success? ==> |r.value| == |entries|
    ensures (exists i :: 0 <= i < |lines| && |lines[i]| != 4) ==> r.Failure? && r.error.MalformedLine?
  {
    var prefs :- ParsePreferences(lines);
    MergeAll(entries, BuildTable(prefs), base)
  }

  /** Merging changes only the skin and the Steam id, and a skin it sets is one
      the car ships with. */
  lemma MergeEntryShape(e: Entry, t: Table, base: map<string, seq<string>>)
    requires t.skins.Keys == t.steam.Keys
    requires MergeEntry(e, t, base).Success?
    ensures var m := MergeEntry(e, t, base).value;
      && m.name == e.name && m.rdUid == e.rdUid && m.car == e.car
      && (m != e ==> m.car.Some? && m.car.value in base && m.skin.Some? && m.skin.value in base[m.car.value]
                     && m.steamUid.Some?)
  {
  }

  /** The last row for a racer's roster id and car decides its skin, and the
      last row for its roster id decides its Steam id. */
  lemma PreferenceWins(e: Entry, prefs: seq<Preference>, base: map<string, seq<string>>, car: string)
    requires e.rdUid.Some? && e.car == Some(car) && car in base
    requires LastRow(prefs, e.rdUid.value, e.car, false).Some?
    requires var s := prefs[LastRow(prefs, e.rdUid.value, e.car, false).value].skin; s != "" && s in base[car]
    ensures MergeEntry(e, BuildTable(prefs), base)
         == Success(e.(skin := Some(prefs[LastRow(prefs, e.rdUid.value, e.car, false).value].skin),
                       steamUid := Some(prefs[LastRow(prefs, e.rdUid.value, None, true).value].steamUid)))
  {
    SkinTableMeaning(prefs, e.rdUid.value, e.car);
    SteamTableMeaning(prefs, e.rdUid.value);
  }

  /** A preference for a skin the car does not ship with is an error. */
  lemma UnknownSkinRejected(e: Entry, prefs: seq<Preference>, base: map<string, seq<string>>, car: string)
    requires e.rdUid.Some? && e.car == Some(car) && car in base
    requires LastRow(prefs, e.rdUid.value, e.car, false).Some?
    requires var s := prefs[LastRow(prefs, e.rdUid.value, e.car, false).value].skin; s != "" && s !in base[car]
    ensures MergeEntry(e, BuildTable(prefs), base).Failure?
  {
    SkinTableMeaning(prefs, e.rdUid.value, e.car);
  }

  /** A racer with no row for its roster id and car is left alone. */
  lemma NoPreferenceUnchanged(e: Entry, prefs: seq<Preference>, base: map<string, seq<string>>)
    requires e.rdUid.None? || LastRow(prefs, e.rdUid.value, e.car, false).None?
    ensures MergeEntry(e, BuildTable(prefs), base) == Success(e)
  {
    if e.rdUid.Some? {
      SkinTableMeaning(prefs, e.rdUid.value, e.car);
    }
  }

  /** Starting from racers with no skin, every skin the merge sets is one the
      racer's car ships with. */
  lemma MergeRequestsValid(entries: seq<Entry>, lines: seq<seq<string>>, base: map<string, seq<string>>)
    requires "" !in base
    requires forall k :: 0 <= k < |entries| ==> entries[k].skin.None?
    requires Merge(entries, lines, base).Success?
    ensures RequestsValid(Merge(entries, lines, base).value, base)
  {
    var t := BuildTable(ParsePreferences(lines).value);
    var merged := Merge(entries, lines, base).value;
    assert MergeAll(entries, t, base) == Success(merged);
    forall k | 0 <= k < |merged| && Present(merged[k].skin)
      ensures Present(merged[k].car) && merged[k].car.value in base && merged[k].skin.value in base[merged[k].car.value]
    {
      MergeEntryShape(entries[k], t, base);
    }
  }

  /** Merging the same rows a second time changes nothing. */
  lemma MergeEntryIdempotent(e: Entry, t: Table, base: map<string, seq<string>>)
    requires t.skins.Keys == t.steam.Keys
    requires MergeEntry(e, t, base).Success?
    ensures MergeEntry(MergeEntry(e, t, base).value, t, base) == MergeEntry(e, t, base)
  {
  }

  lemma {:induction false} MergeAllIdempotent(entries: seq<Entry>, t: Table, base: map<string, seq<string>>)
    requires t.skins.Keys == t.steam.Keys
    requires MergeAll(entries, t, base).Success?
    ensures MergeAll(MergeAll(entries, t, base).value, t, base) == MergeAll(entries, t, base)
    decreases |entries|
  {
    if entries != [] {
      var once := MergeAll(entries, t, base).value;
      MergeEntryIdempotent(entries[0], t, base);
      MergeAllIdempotent(entries[1..], t, base);
      assert once[1..] == MergeAll(entries[1..], t, base).value;
    }
  }
}
