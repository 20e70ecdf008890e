/** One race-grid slot of the entry-list generator. */
module Entries {
  import opened Wrappers

  /** A slot: display name, roster id, Steam id bound by a skin preference,
      car and skin; any of them may still be missing. */
  datatype Entry = Entry(
    name: Option<string>,
    rdUid: Option<string>,
    steamUid: Option<string>,
    car: Option<string>,
    skin: Option<string>)

  /** A padding slot with nothing filled in. */
  const Blank: Entry := Entry(None, None, None, None, None)

  /** Python truthiness of an optional string: present and non-empty. */
  predicate Present(o: Option<string>) {
    o.Some? && o.value != ""
  }

  /** `o or default`. */
  function OrElse(o: Option<string>, default: string): (r: string)
    ensures Present(o) ==> r == o.value
    ensures !Present(o) ==> r == default
  {
    if Present(o) then o.value else default
  }

  /** Every explicitly requested skin is one its car ships with, according to
      the table of skins per car. */
  predicate RequestsValid(entries: seq<Entry>, skinsOf: map<string, seq<string>>) {
    forall k :: 0 <= k < |entries| && Present(entries[k].skin) ==>
      Present(entries[k].car) && entries[k].car.value in skinsOf && entries[k].skin.value in skinsOf[entries[k].car.value]
  }
}
