/** The car catalogue of the entry-list generator: the nickname table built by
    registering each car with its nicknames, the list of all cars, the cars
    drawn less often, and the biased draw list. */
module CarCatalog {
  import opened Wrappers
  import opened CarRowData

  /** ASCII lower-casing of one character. */
  function LowerChar(c: char): char {
    if 'A' <= c <= 'Z' then (c as int + 32) as char else c
  }

  /** str.lower() on ASCII text. */
  function Lower(s: string): (r: string)
    ensures |r| == |s|
    ensures forall k :: 0 <= k < |s| ==> r[k] == LowerChar(s[k])
  {
    seq(|s|, k requires 0 <= k < |s| => LowerChar(s[k]))
  }

  /** The catalogue state the registrations build up. */
  datatype Catalog = Catalog(nicknameToCar: map<string, string>, allCars: seq<string>, lessPopular: seq<string>)

  /** The lower-cased nicknames of a list. */
  function Lowered(ns: seq<string>): (r: seq<string>)
    ensures |r| == |ns|
    ensures forall j :: 0 <= j < |ns| ==> r[j] == Lower(ns[j])
  {
    seq(|ns|, j requires 0 <= j < |ns| => Lower(ns[j]))
  }

  /** The nickname loop: each lower-cased nickname now maps to the model. */
  function AddNicknames(m: map<string, string>, ns: seq<string>, model: string): (r: map<string, string>)
    decreases |ns|
    ensures forall k :: k in r <==> k in m || k in Lowered(ns)
    ensures forall k :: k in Lowered(ns) ==> r[k] == model
    ensures forall k :: k in m && k !in Lowered(ns) ==> r[k] == m[k]
  {
    if ns == [] then m
    else
      var r := AddNicknames(m[Lower(ns[0]) := model], ns[1..], model);
      assert Lowered(ns) == [Lower(ns[0])] + Lowered(ns[1..]);
      r
  }

  /** Registers one car: appends it to the car list, maps its nicknames to it,
      and records it as less popular when flagged. */
  function Populate(cat: Catalog, row: CarRow): (r: Catalog)
    ensures r.allCars == cat.allCars + [row.model]
    ensures r.lessPopular == if row.lessPopular then cat.lessPopular + [row.model] else cat.lessPopular
    ensures forall k :: k in r.nicknameToCar <==> k in cat.nicknameToCar || k in Lowered(row.nicknames)
    ensures forall k :: k in Lowered(row.nicknames) ==> r.nicknameToCar[k] == row.model
    ensures forall k :: k in cat.nicknameToCar && k !in Lowered(row.nicknames) ==>
      r.nicknameToCar[k] == cat.nicknameToCar[k]
  {
    Catalog(AddNicknames(cat.nicknameToCar, row.nicknames, row.model),
            cat.allCars + [row.model],
            if row.lessPopular then cat.lessPopular + [row.model] else cat.lessPopular)
  }

  /** Some registration lists k among its nicknames. */
  predicate Registered(rows: seq<CarRow>, k: string) {
    exists i :: 0 <= i < |rows| && k in Lowered(rows[i].nicknames)
  }

  /** Row i is the last registration listing k. */
  predicate LastOwner(rows: seq<CarRow>, k: string, i: int) {
    0 <= i < |rows| && k in Lowered(rows[i].nicknames)
    && forall i2 :: i < i2 < |rows| ==> k !in Lowered(rows[i2].nicknames)
  }

  /** The catalogue after all registrations, in order. */
  function Build(rows: seq<CarRow>): (r: Catalog)
    decreases |rows|
    ensures |r.allCars| == |rows|
    ensures forall i :: 0 <= i < |rows| ==> r.allCars[i] == rows[i].model
  {
    if rows == [] then Catalog(map[], [], [])
    else Populate(Build(rows[..|rows| - 1]), rows[|rows| - 1])
  }

  /** A car is less popular exactly when one of its registrations says so. */
  lemma {:induction false} BuildLessPopular(rows: seq<CarRow>)
    decreases |rows|
    ensures forall c :: c in Build(rows).lessPopular <==>
      exists i :: 0 <= i < |rows| && rows[i].lessPopular && rows[i].model == c
  {
    if rows != [] {
      var prefix := rows[..|rows| - 1];
      BuildLessPopular(prefix);
      assert forall i :: 0 <= i < |prefix| ==> prefix[i] == rows[i];
    }
  }

  /** The nickname table holds exactly the registered nicknames, lower-cased. */
  lemma {:induction false} BuildNicknameKeys(rows: seq<CarRow>)
    decreases |rows|
    ensures forall k :: k in Build(rows).nicknameToCar <==> Registered(rows, k)
  {
    if rows != [] {
      var prefix := rows[..|rows| - 1];
      var last := rows[|rows| - 1];
      var r := Build(rows);
      BuildNicknameKeys(prefix);
      forall k ensures k in r.nicknameToCar <==> Registered(rows, k) {
        if Registered(rows, k) && k !in Lowered(last.nicknames) {
          var i :| 0 <= i < |rows| && k in Lowered(rows[i].nicknames);
          assert i < |prefix| && prefix[i] == rows[i];
          assert Registered(prefix, k);
        }
        if Registered(prefix, k) {
          var i :| 0 <= i < |prefix| && k in Lowered(prefix[i].nicknames);
          assert prefix[i] == rows[i];
        }
      }
    }
  }

  /** A nickname maps to the model of its last registration. */
  lemma {:induction false} BuildNicknameOwner(rows: seq<CarRow>, k: string, i: int)
    requires LastOwner(rows, k, i)
    decreases |rows|
    ensures k in Build(rows).nicknameToCar && Build(rows).nicknameToCar[k] == rows[i].model
  {
    var prefix := rows[..|rows| - 1];
    var last := rows[|rows| - 1];
    if i < |prefix| {
      assert k !in Lowered(last.nicknames);
      assert forall i2 :: 0 <= i2 < |prefix| ==> prefix[i2] == rows[i2];
      assert LastOwner(prefix, k, i);
      BuildNicknameOwner(prefix, k, i);
    }
  }

  /** Every nickname maps to a registered model. */
  lemma {:induction false} BuildNicknameTargets(rows: seq<CarRow>)
    decreases |rows|
    ensures forall k :: k in Build(rows).nicknameToCar ==>
      exists i :: 0 <= i < |rows| && Build(rows).nicknameToCar[k] == rows[i].model
  {
    if rows != [] {
      var prefix := rows[..|rows| - 1];
      var last := rows[|rows| - 1];
      var before := Build(prefix);
      var r := Build(rows);
      BuildNicknameTargets(prefix);
      forall k | k in r.nicknameToCar
        ensures exists i :: 0 <= i < |rows| && r.nicknameToCar[k] == rows[i].model
      {
        if k in Lowered(last.nicknames) {
          assert r.nicknameToCar[k] == rows[|rows| - 1].model;
        } else {
          var i :| 0 <= i < |prefix| && before.nicknameToCar[k] == prefix[i].model;
          assert r.nicknameToCar[k] == rows[i].model;
        }
      }
    }
  }

  /** The catalogue of the built-in registrations. */
  const BuiltIn: Catalog := Build(CarRows)
  /** ALL_CARS */
  const AllCars: seq<string> := BuiltIn.allCars
  /** LESS_POPULAR_CARS */
  const LessPopularCars: seq<string> := BuiltIn.lessPopular

  /** The draw list: every car once, and a popular car a second time right after. */
  function Biased(all: seq<string>, less: seq<string>): seq<string>
    decreases |all|
  {
    if all == [] then []
    else
      var c := all[|all| - 1];
      Biased(all[..|all| - 1], less) + (if c !in less then [c, c] else [c])
  }

  /** BIASED_CARS */
  const BiasedCars: seq<string> := Biased(AllCars, LessPopularCars)

  /** Positions of the car list whose car is less popular. */
  function LessPositions(all: seq<string>, less: seq<string>): set<nat> {
    set i: nat | i < |all| && all[i] in less
  }

  /** A car's multiplicity in the draw list: once if less popular, twice otherwise,
      for a list of distinct cars. */
  lemma {:induction false} BiasedMultiplicity(all: seq<string>, less: seq<string>, c: string)
    requires forall a, b :: 0 <= a < b < |all| ==> all[a] != all[b]
    decreases |all|
    ensures multiset(Biased(all, less))[c] == if c !in all then 0 else if c in less then 1 else 2
  {
    if all != [] {
      var prefix := all[..|all| - 1];
      var last := all[|all| - 1];
      BiasedMultiplicity(prefix, less, c);
      assert c in all <==> c in prefix || c == last;
      if c == last {
        assert c !in prefix;
      }
    }
  }

  /** The draw list has two entries per car, minus one per less popular car. */
  lemma {:induction false} BiasedLength(all: seq<string>, less: seq<string>)
    decreases |all|
    ensures |Biased(all, less)| == 2 * |all| - |LessPositions(all, less)|
  {
    if all != [] {
      var prefix := all[..|all| - 1];
      var n := |all| - 1;
      BiasedLength(prefix, less);
      var here: set<nat> := if all[n] in less then {n} else {};
      assert LessPositions(all, less) == LessPositions(prefix, less) + here;
      assert n !in LessPositions(prefix, less);
    }
  }

  /** The built-in car list has nine distinct cars, one of them less popular. */
  lemma AllCarsFacts()
    ensures |AllCars| == 9
    ensures forall a, b :: 0 <= a < b < |AllCars| ==> AllCars[a] != AllCars[b]
    ensures forall i :: 0 <= i < |AllCars| ==> (AllCars[i] in LessPopularCars <==> i == 6)
    ensures LessPositions(AllCars, LessPopularCars) == {6}
  {
    CarRowsDistinct();
    CarRowsLessPopular();
    BuildLessPopular(CarRows);
    forall i | 0 <= i < |AllCars| ensures AllCars[i] in LessPopularCars <==> i == 6 {
      if AllCars[i] in LessPopularCars {
        var i2 :| 0 <= i2 < |CarRows| && CarRows[i2].lessPopular && CarRows[i2].model == AllCars[i];
        assert i2 == 6;
      } else {
        assert CarRows[6].lessPopular;
      }
    }
  }

  /** The empty string is not a car. */
  lemma NoEmptyCar()
    ensures "" !in AllCars
  {
    CarRowsNamed();
  }

  /** BIASED_CARS holds every car and nothing else, the less popular ones once
      and the others twice. */
  lemma BiasedCarsMultiplicity(c: string)
    ensures c in BiasedCars <==> c in AllCars
    ensures c in AllCars ==> multiset(BiasedCars)[c] == if c in LessPopularCars then 1 else 2
  {
    AllCarsFacts();
    BiasedMultiplicity(AllCars, LessPopularCars, c);
  }

  /** BIASED_CARS has 2 * 9 - 1 = 17 entries. */
  lemma BiasedCarsLength()
    ensures |BiasedCars| == 2 * |AllCars| - 1 == 17
  {
    AllCarsFacts();
    BiasedLength(AllCars, LessPopularCars);
  }

  /** get_car_from_nickname against a catalogue: None for empty input;
      otherwise the lower-cased input looked up as a nickname, then as a
      canonical id. */
  function Resolve(cat: Catalog, nick: string): Option<string> {
    if nick == "" then None
    else
      var key := Lower(nick);
      if key in cat.nicknameToCar then Some(cat.nicknameToCar[key])
      else if key in cat.allCars then Some(key)
      else None
  }

  /** get_car_from_nickname, against the built-in catalogue. */
  function CarFromNickname(nick: string): Option<string> {
    Resolve(BuiltIn, nick)
  }

  lemma ResolvesToBuiltCar(rows: seq<CarRow>, nick: string)
    ensures Resolve(Build(rows), nick).Some? ==> Resolve(Build(rows), nick).value in Build(rows).allCars
  {
    BuildNicknameTargets(rows);
  }

  /** Whatever the input, a resolved car is one of the canonical cars. */
  lemma ResolvesToKnownCar(nick: string)
    ensures CarFromNickname(nick).Some? ==> CarFromNickname(nick).value in AllCars
  {
    ResolvesToBuiltCar(CarRows, nick);
  }

  lemma ResolveIgnoresCaseIn(cat: Catalog, a: string, b: string)
    requires Lower(a) == Lower(b)
    ensures Resolve(cat, a) == Resolve(cat, b)
  {
    assert |a| == |Lower(a)| == |b|;
  }

  /** Resolution ignores case. */
  lemma ResolveIgnoresCase(a: string, b: string)
    requires Lower(a) == Lower(b)
    ensures CarFromNickname(a) == CarFromNickname(b)
  {
    ResolveIgnoresCaseIn(BuiltIn, a, b);
  }

  /** A registered nickname, in any case, resolves to the car of its last registration. */
  lemma ResolvesNickname(nick: string, i: int)
    requires nick != "" && LastOwner(CarRows, Lower(nick), i)
    ensures CarFromNickname(nick) == Some(CarRows[i].model)
  {
    BuildNicknameOwner(CarRows, Lower(nick), i);
  }

  /** When no nickname is as long as a model, no model is a registered nickname. */
  lemma ModelNotRegistered(rows: seq<CarRow>, i: int)
    requires 0 <= i < |rows|
    requires forall i1, j, i2 :: 0 <= i1 < |rows| && 0 <= j < |rows[i1].nicknames| && 0 <= i2 < |rows| ==>
      |rows[i1].nicknames[j]| != |rows[i2].model|
    ensures !Registered(rows, rows[i].model)
  {
  }

  lemma ResolvesBuiltId(rows: seq<CarRow>, i: int)
    requires 0 <= i < |rows| && rows[i].model != "" && NoUpper(rows[i].model)
    requires forall i1, j, i2 :: 0 <= i1 < |rows| && 0 <= j < |rows[i1].nicknames| && 0 <= i2 < |rows| ==>
      |rows[i1].nicknames[j]| != |rows[i2].model|
    ensures Resolve(Build(rows), rows[i].model) == Some(rows[i].model)
  {
    var c := rows[i].model;
    assert Lower(c) == c;
    ModelNotRegistered(rows, i);
    BuildNicknameKeys(rows);
  }

  /** A canonical id resolves to itself. */
  lemma ResolvesCanonicalId(c: string)
    requires c in AllCars
    ensures CarFromNickname(c) == Some(c)
  {
    var i :| 0 <= i < |AllCars| && AllCars[i] == c;
    CarRowsLowerCase();
    CarRowsNamed();
    CarRowsNicknameLengths();
    ResolvesBuiltId(CarRows, i);
  }

  /** The empty string and anything that is neither a registered nickname nor
      a canonical id, in any case, resolve to nothing. */
  lemma ResolvesNothing(nick: string)
    ensures CarFromNickname(nick).None? <==>
      nick == "" || (!Registered(CarRows, Lower(nick)) && Lower(nick) !in AllCars)
  {
    BuildNicknameKeys(CarRows);
  }
}
