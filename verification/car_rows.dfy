/** The built-in car registrations of the entry-list generator, as data, with
    the facts about them that the catalogue's lemmas rely on. */
module CarRowData {

  predicate NoUpper(s: string) {
    forall k :: 0 <= k < |s| ==> !('A' <= s[k] <= 'Z')
  }

  /** One registration: a canonical car id, its nicknames, and whether it is drawn less often. */
  datatype CarRow = CarRow(model: string, nicknames: seq<string>, lessPopular: bool)

  /** The built-in registrations, in order. */
  const CarRows: seq<CarRow> := [
    CarRow("ks_ferrari_488_gt3", ["Ferrari", "488", "F488"], false),
    CarRow("ks_audi_r8_lms_2016", ["Audi", "R8"], false),
    CarRow("bmw_z4_gt3", ["BMW", "Bimmer", "Z4"], false),
    CarRow("ks_glickenhaus_scg003", ["Glickenhaus", "SCG"], false),
    CarRow("ks_lamborghini_huracan_gt3", ["Lambo", "Huracan", "Lamborghini"], false),
    CarRow("ks_mclaren_650_gt3", ["650s", "Macca", "McLaren"], false),
    CarRow("ks_mercedes_amg_gt3", ["Merc", "Mercedes", "AMG"], true),
    CarRow("ks_nissan_gtr_gt3", ["Nissan", "GTR", "GT-R", "Godzilla"], false),
    CarRow("ks_porsche_911_gt3_r_2016", ["Porsche", "911"], false)
  ]

  /** Canonical ids have no upper-case letters. Checked one row at a time to
      keep each proof small. */
  lemma CarRowsLowerCase()
    ensures forall i :: 0 <= i < |CarRows| ==> NoUpper(CarRows[i].model)
  {
    forall i | 0 <= i < |CarRows| ensures NoUpper(CarRows[i].model) {
      if i == 0 { Row0LowerCase(); }
      else if i == 1 { Row1LowerCase(); }
      else if i == 2 { Row2LowerCase(); }
      else if i == 3 { Row3LowerCase(); }
      else if i == 4 { Row4LowerCase(); }
      else if i == 5 { Row5LowerCase(); }
      else if i == 6 { Row6LowerCase(); }
      else if i == 7 { Row7LowerCase(); }
      else { Row8LowerCase(); }
    }
  }

  lemma Row0LowerCase() ensures NoUpper(CarRows[0].model) {}
  lemma Row1LowerCase() ensures NoUpper(CarRows[1].model) {}
  lemma Row2LowerCase() ensures NoUpper(CarRows[2].model) {}
  lemma Row3LowerCase() ensures NoUpper(CarRows[3].model) {}
  lemma Row4LowerCase() ensures NoUpper(CarRows[4].model) {}
  lemma Row5LowerCase() ensures NoUpper(CarRows[5].model) {}
  lemma Row6LowerCase() ensures NoUpper(CarRows[6].model) {}
  lemma Row7LowerCase() ensures NoUpper(CarRows[7].model) {}
  lemma Row8LowerCase() ensures NoUpper(CarRows[8].model) {}

  /** No canonical id is empty. */
  lemma CarRowsNamed()
    ensures forall i :: 0 <= i < |CarRows| ==> CarRows[i].model != ""
  {
  }

  /** Canonical ids are distinct. */
  lemma CarRowsDistinct()
    ensures forall i, i2 :: 0 <= i < i2 < |CarRows| ==> CarRows[i].model != CarRows[i2].model
  {
  }

  /** Only the Mercedes is less popular. */
  lemma CarRowsLessPopular()
    ensures forall i :: 0 <= i < |CarRows| ==> (CarRows[i].lessPopular <==> i == 6)
  {
  }

  /** No nickname is as long as any canonical id, so none can be one. */
  lemma CarRowsNicknameLengths()
    ensures forall i, j, i2 :: 0 <= i < |CarRows| && 0 <= j < |CarRows[i].nicknames| && 0 <= i2 < |CarRows| ==>
      |CarRows[i].nicknames[j]| != |CarRows[i2].model|
  {
  }
}
