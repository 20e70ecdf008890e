/** The replay skin patcher: finds the first occurrence of the old skin name,
    overwrites the length byte that sits four bytes before it with the new
    name's length, then replaces every occurrence of the old name. */
module ChangeSkin {
  import opened Wrappers
  import opened ByteReplace
  import opened Bytes

  /** Distance from the length byte back to the name it prefixes. */
  const LengthPrefixDistance: nat := 4

  datatype SkinError =
    | SkinNotFound      // bytearray.index raised ValueError
    | LengthNotAByte    // the new length does not fit in a byte (ValueError)
    | IndexOutOfRange   // the length byte's index lies outside the buffer (IndexError)

  /** Python's reading of a possibly negative index into a buffer of the given size. */
  function PythonIndex(size: nat, idx: int): (r: Option<nat>)
    ensures r.Some? <==> -(size as int) <= idx < size
    ensures r.Some? ==> r.value < size
    ensures r.Some? && idx >= 0 ==> r.value == idx
    ensures r.Some? && idx < 0 ==> r.value == idx + size
  {
    if idx < 0 then (if idx + size >= 0 then Some(idx + size) else None)
    else if idx < size then Some(idx) else None
  }

  /** Writes the new name's length into the byte four places before the first
      occurrence of the old name; a first occurrence below offset 4 wraps to
      the end of the buffer as Python's negative indexing does. */
  function PatchLengthByte(data: seq<Byte>, inSkin: seq<Byte>, outSkin: seq<Byte>): (r: Result<seq<Byte>, SkinError>)
    ensures r == Failure(SkinNotFound) <==> Find(data, inSkin).None?
    ensures Find(data, inSkin).Some? && |outSkin| > 255 ==> r == Failure(LengthNotAByte)
    ensures Find(data, inSkin).Some? && |outSkin| <= 255
            && PythonIndex(|data|, Find(data, inSkin).value - LengthPrefixDistance).None? ==>
              r == Failure(IndexOutOfRange)
    ensures r.Success? <==>
      && Find(data, inSkin).Some?
      && |outSkin| <= 255
      && PythonIndex(|data|, Find(data, inSkin).value - LengthPrefixDistance).Some?
    ensures r.Success? ==>
      var pos := PythonIndex(|data|, Find(data, inSkin).value - LengthPrefixDistance).value;
      && |r.value| == |data|
      && r.value[pos] as nat == |outSkin|
      && (forall j :: 0 <= j < |data| && j != pos ==> r.value[j] == data[j])
  {
    match Find(data, inSkin)
    case None => Failure(SkinNotFound)
    case Some(skinIdx) =>
      if |outSkin| > 255 then Failure(LengthNotAByte)
      else
        match PythonIndex(|data|, skinIdx - LengthPrefixDistance)
        case None => Failure(IndexOutOfRange)
        case Some(pos) => Success(data[pos := |outSkin| as Byte])
  }

  /** The whole patch: length byte first, then every occurrence replaced. */
  function ChangeSkin(data: seq<Byte>, inSkin: seq<Byte>, outSkin: seq<Byte>): (r: Result<seq<Byte>, SkinError>)
    ensures r == Failure(SkinNotFound) <==> Find(data, inSkin).None?
    ensures r.Success? <==> PatchLengthByte(data, inSkin, outSkin).Success?
    ensures PatchLengthByte(data, inSkin, outSkin).Failure? ==> r == Failure(PatchLengthByte(data, inSkin, outSkin).error)
  {
    var patched :- PatchLengthByte(data, inSkin, outSkin);
    Success(ReplaceAll(patched, inSkin, outSkin))
  }

  /** On success the output is the patched buffer with every greedy occurrence of
      the old name replaced and all other bytes kept, and its length grows by
      |outSkin| - |inSkin| per replaced occurrence. */
  lemma ChangeSkinShape(data: seq<Byte>, inSkin: seq<Byte>, outSkin: seq<Byte>)
    requires |inSkin| > 0
    requires ChangeSkin(data, inSkin, outSkin).Success?
    ensures var patched := PatchLengthByte(data, inSkin, outSkin).value;
      && ChangeSkin(data, inSkin, outSkin).value == Splice(patched, MatchesFrom(patched, inSkin, 0), |inSkin|, outSkin, 0)
      && |ChangeSkin(data, inSkin, outSkin).value| == |data| + Count(patched, inSkin) * (|outSkin| - |inSkin|)
  {
    var patched := PatchLengthByte(data, inSkin, outSkin).value;
    ReplaceIsSplice(patched, inSkin, outSkin, 0);
    ReplaceAllLength(patched, inSkin, outSkin);
  }

  /** Length prefixes of occurrences other than the first are left alone. */
  lemma OtherPrefixesKept(data: seq<Byte>, inSkin: seq<Byte>, outSkin: seq<Byte>, m: nat)
    requires |inSkin| > 0 && PatchLengthByte(data, inSkin, outSkin).Success?
    requires OccursAt(data, inSkin, m) && m != Find(data, inSkin).value && m >= LengthPrefixDistance
    ensures PatchLengthByte(data, inSkin, outSkin).value[m - LengthPrefixDistance] == data[m - LengthPrefixDistance]
  {
    var idx := Find(data, inSkin).value;
    var pos := PythonIndex(|data|, idx - LengthPrefixDistance).value;
    assert m < |data|;
    assert pos != m - LengthPrefixDistance;
  }

  /** Renaming a skin to itself when its length byte is already right changes
      nothing; this includes a first occurrence in bytes 0-3, whose length byte
      is the wrapped one at the end of the buffer. */
  lemma ChangeSkinToItself(data: seq<Byte>, skin: seq<Byte>, idx: nat)
    requires Find(data, skin) == Some(idx) && |skin| <= 255
    requires PythonIndex(|data|, idx - LengthPrefixDistance).Some?
    requires data[PythonIndex(|data|, idx - LengthPrefixDistance).value] as nat == |skin|
    ensures ChangeSkin(data, skin, skin) == Success(data)
  {
    var patched := PatchLengthByte(data, skin, skin).value;
    assert patched == data;
    ReplaceAllSame(data, skin);
  }
}
