/** The setup copier: copies the VALUE key of a fixed table of setup sections
    (grouped by change type) from a reference setup into each target setup. */
module ChangeSetup {
  import opened Wrappers

  /** One INI section: key to value. */
  type Section = map<string, string>
  /** A parsed setup file: section name to section. */
  type Config = map<string, Section>

  /** The only key copied within a section. */
  const ValueKey: string := "VALUE"

  const GearFields: seq<string> := [
    "INTERNAL_GEAR_1", "INTERNAL_GEAR_2", "INTERNAL_GEAR_3", "INTERNAL_GEAR_4",
    "INTERNAL_GEAR_5", "INTERNAL_GEAR_6", "INTERNAL_GEAR_7", "INTERNAL_GEAR_8",
    "INTERNAL_GEAR_9", "FINAL_RATIO"]
  const TyreFields: seq<string> := ["TYRES", "PRESSURE_LF", "PRESSURE_RF", "PRESSURE_LR", "PRESSURE_RR"]
  const ElectronicsFields: seq<string> := ["TRACTION_CONTROL", "ABS"]

  /** The field table, looked up by change type; None where Python raises KeyError. */
  function FieldsToCopy(changeType: string): Option<seq<string>> {
    if changeType == "gears" then Some(GearFields)
    else if changeType == "tyres" then Some(TyreFields)
    else if changeType == "electronics" then Some(ElectronicsFields)
    else None
  }

  /** The gear names are INTERNAL_GEAR_1 .. INTERNAL_GEAR_9 followed by FINAL_RATIO,
      the three groups have 10, 5 and 2 names, and no section is in two groups. */
  lemma FieldTableShape()
    ensures |GearFields| == 10 && |TyreFields| == 5 && |ElectronicsFields| == 2
    ensures forall k :: 0 <= k < 9 ==> GearFields[k] == "INTERNAL_GEAR_" + [('1' as int + k) as char]
    ensures GearFields[9] == "FINAL_RATIO"
    ensures forall f :: f in GearFields ==> f !in TyreFields && f !in ElectronicsFields
    ensures forall f :: f in TyreFields ==> f !in ElectronicsFields
  {
  }

  datatype SetupError =
    | UnknownChangeType(changeType: string)   // FIELDS_TO_COPY[change_type] raised KeyError
    | MissingInputValue(section: string)      // ic[field]["VALUE"] raised KeyError
    | MissingOutputSection(section: string)   // oc[field] raised KeyError

  /** Reference description of the copy of a set of sections: in every output
      section that is selected and present in the input, VALUE takes the input's
      value; everything else stays as it was. */
  function Copied(inConf: Config, outConf: Config, fields: set<string>): (r: Config)
    requires forall f :: f in fields && f in inConf ==> ValueKey in inConf[f]
    ensures r.Keys == outConf.Keys
  {
    map sec | sec in outConf ::
      if sec in fields && sec in inConf then outConf[sec][ValueKey := inConf[sec][ValueKey]]
      else outConf[sec]
  }

  /** The copy of these sections raises no KeyError. */
  predicate Copyable(inConf: Config, outConf: Config, fields: set<string>) {
    forall f :: f in fields && f in inConf ==> ValueKey in inConf[f] && f in outConf
  }

  /** One iteration of the inner loop. The right-hand side is evaluated first. */
  function CopyField(inConf: Config, outConf: Config, field: string): (r: Result<Config, SetupError>)
    ensures r.Success? <==> Copyable(inConf, outConf, {field})
    ensures r.Success? ==> r.value == Copied(inConf, outConf, {field})
  {
    if field !in inConf then Success(outConf)
    else if ValueKey !in inConf[field] then Failure(MissingInputValue(field))
    else if field !in outConf then Failure(MissingOutputSection(field))
    else Success(outConf[field := outConf[field][ValueKey := inConf[field][ValueKey]]])
  }

  /** The inner loop over the fields of one change type. */
  function CopyFields(inConf: Config, outConf: Config, fields: seq<string>): Result<Config, SetupError>
    decreases |fields|
  {
    if fields == [] then Success(outConf)
    else
      var next :- CopyField(inConf, outConf, fields[0]);
      CopyFields(inConf, next, fields[1..])
  }

  /** The outer loop over the requested change types. */
  function CopyTypes(inConf: Config, outConf: Config, changeTypes: seq<string>): Result<Config, SetupError>
    decreases |changeTypes|
  {
    if changeTypes == [] then Success(outConf)
    else
      match FieldsToCopy(changeTypes[0])
      case None => Failure(UnknownChangeType(changeTypes[0]))
      case Some(fields) =>
        var next :- CopyFields(inConf, outConf, fields);
        CopyTypes(inConf, next, changeTypes[1..])
  }

  /** Every requested change type is in the table. */
  predicate KnownTypes(changeTypes: seq<string>) {
    forall t :: t in changeTypes ==> FieldsToCopy(t).Some?
  }

  /** The sections named by the requested change types. */
  function Selected(changeTypes: seq<string>): set<string> {
    set t, f | t in changeTypes && FieldsToCopy(t).Some? && f in FieldsToCopy(t).value :: f
  }

  lemma CopiedComposeAt(inConf: Config, outConf: Config, a: set<string>, b: set<string>, sec: string)
    requires Copyable(inConf, outConf, a) && Copyable(inConf, outConf, b) && sec in outConf
    ensures Copied(inConf, Copied(inConf, outConf, a), b)[sec] == Copied(inConf, outConf, a + b)[sec]
  {
    var mid := Copied(inConf, outConf, a);
    var lhs := Copied(inConf, mid, b);
    var rhs := Copied(inConf, outConf, a + b);
    assert sec in mid;
    if sec in inConf && (sec in a || sec in b) {
      var v := inConf[sec][ValueKey];
      var updated := outConf[sec][ValueKey := v];
      assert rhs[sec] == updated;
      if sec in a {
        assert mid[sec] == updated;
        if sec in b {
          assert lhs[sec] == updated[ValueKey := v];
          assert updated[ValueKey := v] == updated;
        } else {
          assert lhs[sec] == mid[sec];
        }
      } else {
        assert mid[sec] == outConf[sec];
        assert lhs[sec] == updated;
      }
    } else {
      assert lhs[sec] == mid[sec] == outConf[sec] == rhs[sec];
    }
  }

  /** A union of sections copies cleanly exactly when each part does. */
  lemma CopyableUnion(inConf: Config, outConf: Config, a: set<string>, b: set<string>)
    ensures Copyable(inConf, outConf, a + b) <==> Copyable(inConf, outConf, a) && Copyable(inConf, outConf, b)
  {
  }

  /** Copying A and then B is copying A + B. */
  lemma CopiedCompose(inConf: Config, outConf: Config, a: set<string>, b: set<string>)
    requires Copyable(inConf, outConf, a)
    ensures Copyable(inConf, Copied(inConf, outConf, a), b) == Copyable(inConf, outConf, b)
    ensures Copyable(inConf, outConf, b) ==>
      Copied(inConf, Copied(inConf, outConf, a), b) == Copied(inConf, outConf, a + b)
  {
    if Copyable(inConf, outConf, b) {
      var lhs := Copied(inConf, Copied(inConf, outConf, a), b);
      var rhs := Copied(inConf, outConf, a + b);
      forall sec | sec in outConf
        ensures lhs[sec] == rhs[sec]
      {
        CopiedComposeAt(inConf, outConf, a, b, sec);
      }
      assert lhs.Keys == rhs.Keys;
    }
  }

  lemma {:induction false} CopyFieldsMeaning(inConf: Config, outConf: Config, fields: seq<string>)
    decreases |fields|
    ensures CopyFields(inConf, outConf, fields).Success? <==> Copyable(inConf, outConf, set f | f in fields)
    ensures CopyFields(inConf, outConf, fields).Success? ==>
      CopyFields(inConf, outConf, fields).value == Copied(inConf, outConf, set f | f in fields)
  {
    if fields != [] {
      var head := {fields[0]};
      var tail := set f | f in fields[1..];
      assert (set f | f in fields) == head + tail;
      if Copyable(inConf, outConf, head) {
        var next := Copied(inConf, outConf, head);
        CopyFieldsMeaning(inConf, next, fields[1..]);
        CopiedCompose(inConf, outConf, head, tail);
      }
    } else {
      assert Copied(inConf, outConf, {}) == outConf;
    }
  }

  /** The copy succeeds exactly when every change type is known and no selected
      section that the input has is missing its VALUE or absent from the output;
      it then equals the reference description over the selected sections. */
  lemma {:induction false} CopyTypesMeaning(inConf: Config, outConf: Config, changeTypes: seq<string>)
    decreases |changeTypes|
    ensures CopyTypes(inConf, outConf, changeTypes).Success? <==>
      KnownTypes(changeTypes) && Copyable(inConf, outConf, Selected(changeTypes))
    ensures CopyTypes(inConf, outConf, changeTypes).Success? ==>
      CopyTypes(inConf, outConf, changeTypes).value == Copied(inConf, outConf, Selected(changeTypes))
  {
    if changeTypes == [] {
      assert Copied(inConf, outConf, {}) == outConf;
    } else {
      var t := changeTypes[0];
      var rest := changeTypes[1..];
      assert KnownTypes(changeTypes) <==> FieldsToCopy(t).Some? && KnownTypes(rest) by {
        assert forall x :: x in changeTypes <==> x == t || x in rest;
      }
      if FieldsToCopy(t).Some? {
        var fields := FieldsToCopy(t).value;
        var head := set f | f in fields;
        assert Selected(changeTypes) == head + Selected(rest);
        CopyableUnion(inConf, outConf, head, Selected(rest));
        CopyFieldsMeaning(inConf, outConf, fields);
        if Copyable(inConf, outConf, head) {
          var next := Copied(inConf, outConf, head);
          CopyTypesMeaning(inConf, next, rest);
          CopiedCompose(inConf, outConf, head, Selected(rest));
        }
      }
    }
  }

  /** The effect section by section: a selected section present in the input
      gets the input's VALUE; every other section, and every other key, keeps
      its old value; no section or key other than VALUE appears. */
  lemma CopyEffect(inConf: Config, outConf: Config, changeTypes: seq<string>)
    requires CopyTypes(inConf, outConf, changeTypes).Success?
    ensures var r := CopyTypes(inConf, outConf, changeTypes).value;
      && r.Keys == outConf.Keys
      && (forall sec :: sec in r && sec in Selected(changeTypes) && sec in inConf ==>
            ValueKey in inConf[sec] && ValueKey in r[sec] && r[sec][ValueKey] == inConf[sec][ValueKey])
      && (forall sec :: sec in r && !(sec in Selected(changeTypes) && sec in inConf) ==> r[sec] == outConf[sec])
      && (forall sec, k :: sec in r && k in outConf[sec] && k != ValueKey ==> k in r[sec] && r[sec][k] == outConf[sec][k])
      && (forall sec :: sec in r ==> r[sec].Keys <= outConf[sec].Keys + {ValueKey})
  {
    CopyTypesMeaning(inConf, outConf, changeTypes);
  }

  /** Running the copy again on its own output changes nothing. */
  lemma CopyIdempotent(inConf: Config, outConf: Config, changeTypes: seq<string>)
    requires CopyTypes(inConf, outConf, changeTypes).Success?
    ensures CopyTypes(inConf, CopyTypes(inConf, outConf, changeTypes).value, changeTypes)
         == CopyTypes(inConf, outConf, changeTypes)
  {
    var sel := Selected(changeTypes);
    CopyTypesMeaning(inConf, outConf, changeTypes);
    var once := CopyTypes(inConf, outConf, changeTypes).value;
    CopiedCompose(inConf, outConf, sel, sel);
    assert sel + sel == sel;
    CopyTypesMeaning(inConf, once, changeTypes);
  }

  /** Only the set of requested change types matters, not their order or repetition. */
  lemma CopyOrderIrrelevant(inConf: Config, outConf: Config, types1: seq<string>, types2: seq<string>)
    requires forall t :: t in types1 <==> t in types2
    ensures CopyTypes(inConf, outConf, types1).Success? == CopyTypes(inConf, outConf, types2).Success?
    ensures CopyTypes(inConf, outConf, types1).Success? ==>
      CopyTypes(inConf, outConf, types1) == CopyTypes(inConf, outConf, types2)
  {
    CopyTypesMeaning(inConf, outConf, types1);
    CopyTypesMeaning(inConf, outConf, types2);
    assert Selected(types1) == Selected(types2);
  }

  /** The loop over target files; each is updated from the same reference setup,
      and a failure stops the run with the earlier targets already written. */
  function CopyToAll(inConf: Config, outConfs: seq<Config>, changeTypes: seq<string>): (r: Progress<Config, SetupError>)
    ensures |r.done| <= |outConfs|
    ensures r.failure.None? ==> |r.done| == |outConfs|
    ensures forall k :: 0 <= k < |r.done| ==> CopyTypes(inConf, outConfs[k], changeTypes) == Success(r.done[k])
    ensures r.failure.Some? ==>
      |r.done| < |outConfs| && CopyTypes(inConf, outConfs[|r.done|], changeTypes) == Failure(r.failure.value)
  {
    RunEach(outConfs, c => CopyTypes(inConf, c, changeTypes))
  }
}
