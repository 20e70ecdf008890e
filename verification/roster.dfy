/** Interpretation of the human-readable roster: one entry per line, with the
    car nickname resolved, and the check that no roster id appears twice. */
module Roster {
  import opened Wrappers
  import opened CarCatalog
  import opened Entries
  import opened SeqUtil

  /** The three groups the roster-line pattern captures: roster id, display
      name, and the text before the first parenthesis. */
  datatype LineMatch = LineMatch(rdUid: string, name: string, carNick: string)

  /** A roster line together with every match the pattern found in it. */
  datatype RosterLine = RosterLine(text: string, matches: seq<LineMatch>)

  datatype RosterError =
    | NotAnEntryLine(line: string)
    | UnknownCarNickname(nick: string)
    | DuplicateEntry

  /** The nickname that means "assign a random car later". */
  const ToBeDecided: string := "tbd"

  /** Python's str.isspace for one character. */
  predicate IsSpace(c: char) {
    || c == ' ' || '\t' <= c <= '\r' || '\U{1c}' <= c <= '\U{1f}'
    || c == '\U{85}' || c == '\U{a0}' || c == '\U{1680}' || '\U{2000}' <= c <= '\U{200a}'
    || c == '\U{2028}' || c == '\U{2029}' || c == '\U{202f}' || c == '\U{205f}' || c == '\U{3000}'
  }

  /** Number of leading whitespace characters. */
  function LeadingSpace(s: string): (n: nat)
    ensures n <= |s|
    ensures forall k :: 0 <= k < n ==> IsSpace(s[k])
    ensures n < |s| ==> !IsSpace(s[n])
  {
    if s == [] || !IsSpace(s[0]) then 0 else 1 + LeadingSpace(s[1..])
  }

  /** Number of trailing whitespace characters. */
  function TrailingSpace(s: string): (n: nat)
    ensures n <= |s|
    ensures forall k :: |s| - n <= k < |s| ==> IsSpace(s[k])
    ensures n < |s| ==> !IsSpace(s[|s| - n - 1])
  {
    if s == [] || !IsSpace(s[|s| - 1]) then 0 else 1 + TrailingSpace(s[..|s| - 1])
  }

  /** str.strip(): the text without surrounding whitespace. */
  function Strip(s: string): (r: string)
    ensures |r| <= |s|
  {
    var rest := s[LeadingSpace(s)..];
    rest[..|rest| - TrailingSpace(rest)]
  }

  /** The stripped text is a slice of the input with only whitespace cut off
      either side, and it neither starts nor ends with whitespace. */
  lemma StripMeaning(s: string)
    ensures exists a, b ::
              && 0 <= a <= b <= |s| && Strip(s) == s[a..b]
              && (forall k :: 0 <= k < a ==> IsSpace(s[k]))
              && (forall k :: b <= k < |s| ==> IsSpace(s[k]))
    ensures Strip(s) != [] ==> !IsSpace(Strip(s)[0]) && !IsSpace(Strip(s)[|Strip(s)| - 1])
  {
    var a := LeadingSpace(s);
    var rest := s[a..];
    var t := TrailingSpace(rest);
    var b := |s| - t;
    var r := Strip(s);
    assert r == s[a..b];
    assert forall k :: b <= k < |s| ==> IsSpace(s[k]) by {
      assert forall k :: b <= k < |s| ==> s[k] == rest[k - a];
    }
    if r != [] {
      assert r[0] == s[a];
      assert r[|r| - 1] == rest[|rest| - t - 1];
    }
  }

  /** The normalised nickname: stripped and lower-cased. */
  function NormalNick(carNick: string): string {
    Lower(Strip(carNick))
  }

  /** entry_from_human_readable, from the pattern's matches onward. */
  function EntryFromMatches(line: RosterLine): (r: Result<Entry, RosterError>)
    ensures |line.matches| != 1 ==> r == Failure(NotAnEntryLine(line.text))
    ensures |line.matches| == 1 ==>
      var m := line.matches[0];
      var nick := NormalNick(m.carNick);
      && (nick == ToBeDecided ==> r == Success(Entry(Some(m.name), Some(m.rdUid), None, None, None)))
      && (nick != ToBeDecided && CarFromNickname(nick).None? ==> r == Failure(UnknownCarNickname(nick)))
      && (nick != ToBeDecided && CarFromNickname(nick).Some? ==>
            r == Success(Entry(Some(m.name), Some(m.rdUid), None, CarFromNickname(nick), None)))
  {
    if |line.matches| != 1 then Failure(NotAnEntryLine(line.text))
    else
      var m := line.matches[0];
      var nick := NormalNick(m.carNick);
      if nick == ToBeDecided then Success(Entry(Some(m.name), Some(m.rdUid), None, None, None))
      else
        match CarFromNickname(nick)
        case None => Failure(UnknownCarNickname(nick))
        case Some(car) => Success(Entry(Some(m.name), Some(m.rdUid), None, Some(car), None))
  }

  /** A parsed entry carries the line's name and roster id, no skin and no Steam
      id, and either no car (for "tbd") or a canonical car. */
  lemma ParsedEntryShape(line: RosterLine)
    requires EntryFromMatches(line).Success?
    ensures var e := EntryFromMatches(line).value;
      && |line.matches| == 1
      && e.name == Some(line.matches[0].name) && e.rdUid == Some(line.matches[0].rdUid)
      && e.skin.None? && e.steamUid.None?
      && (e.car.None? <==> NormalNick(line.matches[0].carNick) == ToBeDecided)
      && (e.car.Some? ==> e.car.value in AllCars)
  {
    ResolvesToKnownCar(NormalNick(line.matches[0].carNick));
  }

  /** For any other nickname the catalogue decides: the line parses exactly when
      the nickname resolves, to an entry with that car, and otherwise fails
      naming the normalised nickname. */
  lemma NicknameDecidesCar(line: RosterLine)
    requires |line.matches| == 1 && NormalNick(line.matches[0].carNick) != ToBeDecided
    ensures var nick := NormalNick(line.matches[0].carNick);
      && (EntryFromMatches(line).Success? <==> CarFromNickname(nick).Some?)
      && (EntryFromMatches(line).Success? ==> EntryFromMatches(line).value.car == CarFromNickname(nick))
      && (EntryFromMatches(line).Failure? ==> EntryFromMatches(line).error == UnknownCarNickname(nick))
  {
  }

  /** "tbd" in any case and with any surrounding whitespace is never an error. */
  lemma TbdAccepted(line: RosterLine)
    requires |line.matches| == 1
    requires Lower(Strip(line.matches[0].carNick)) == ToBeDecided
    ensures EntryFromMatches(line).Success? && EntryFromMatches(line).value.car.None?
  {
  }

  /** The list comprehension over the roster: stops at the first bad line. */
  function ParseRoster(lines: seq<RosterLine>): (r: Result<seq<Entry>, RosterError>)
    ensures r.Success? ==> |r.value| == |lines|
  {
    MapUntilError(lines, EntryFromMatches)
  }

  /** A parsed roster holds each line's entry in order; a failure is the error
      of the first line that does not parse. */
  lemma ParseRosterMeaning(lines: seq<RosterLine>)
    ensures ParseRoster(lines).Success? ==>
              forall i :: 0 <= i < |lines| ==> EntryFromMatches(lines[i]) == Success(ParseRoster(lines).value[i])
    ensures ParseRoster(lines).Failure? ==>
              exists i ::
                && 0 <= i < |lines| && EntryFromMatches(lines[i]) == Failure(ParseRoster(lines).error)
                && forall i2 :: 0 <= i2 < i ==> EntryFromMatches(lines[i2]).Success?
  {
    MapUntilErrorMeaning(lines, EntryFromMatches);
  }

  /** Every parsed racer has no skin and no Steam id yet, and a car, if any,
      that is one of the canonical cars. */
  lemma ParsedRosterShape(lines: seq<RosterLine>)
    requires ParseRoster(lines).Success?
    ensures forall i :: 0 <= i < |lines| ==>
      && ParseRoster(lines).value[i].skin.None? && ParseRoster(lines).value[i].steamUid.None?
      && (ParseRoster(lines).value[i].car.Some? ==> ParseRoster(lines).value[i].car.value in AllCars)
  {
    ParseRosterMeaning(lines);
    forall i | 0 <= i < |lines|
      ensures && ParseRoster(lines).value[i].skin.None? && ParseRoster(lines).value[i].steamUid.None?
              && (ParseRoster(lines).value[i].car.Some? ==> ParseRoster(lines).value[i].car.value in AllCars)
    {
      ParsedEntryShape(lines[i]);
    }
  }

  /** The roster ids that are present, in order. */
  function RdUids(entries: seq<Entry>): (ids: seq<string>)
    decreases |entries|
    ensures forall x :: x in ids <==> exists i :: 0 <= i < |entries| && entries[i].rdUid == Some(x)
  {
    if entries == [] then []
    else (if entries[0].rdUid.Some? then [entries[0].rdUid.value] else []) + RdUids(entries[1..])
  }

  /** A sequence has as many distinct values as elements exactly when none repeats. */
  lemma {:induction false} DistinctIffSetSize(xs: seq<string>)
    decreases |xs|
    ensures Distinct(xs) <==> |set x | x in xs| == |xs|
  {
    if xs != [] {
      var rest := xs[1..];
      DistinctIffSetSize(rest);
      var sr := set x | x in rest;
      assert (set x | x in xs) == sr + {xs[0]};
      if xs[0] in rest {
        var k :| 0 <= k < |rest| && rest[k] == xs[0];
        assert xs[0] == xs[k + 1];
        assert sr + {xs[0]} == sr;
        assert |sr| <= |rest| by { SetSizeBound(rest); }
      } else {
        assert Distinct(xs) <==> Distinct(rest);
      }
    }
  }

  lemma {:induction false} SetSizeBound(xs: seq<string>)
    decreases |xs|
    ensures |set x | x in xs| <= |xs|
  {
    if xs != [] {
      SetSizeBound(xs[1..]);
      assert (set x | x in xs) == (set x | x in xs[1..]) + {xs[0]};
    }
  }

  /** Whether two entries share a roster id. */
  predicate SharesRdUid(entries: seq<Entry>) {
    exists a, b :: 0 <= a < b < |entries| && entries[a].rdUid.Some? && entries[a].rdUid == entries[b].rdUid
  }

  lemma SharesCons(entries: seq<Entry>)
    requires entries != []
    ensures SharesRdUid(entries) <==>
      || (entries[0].rdUid.Some? && exists b :: 1 <= b < |entries| && entries[b].rdUid == entries[0].rdUid)
      || SharesRdUid(entries[1..])
  {
    var rest := entries[1..];
    if SharesRdUid(rest) {
      var a, b :| 0 <= a < b < |rest| && rest[a].rdUid.Some? && rest[a].rdUid == rest[b].rdUid;
      assert entries[a + 1] == rest[a] && entries[b + 1] == rest[b];
    }
    if SharesRdUid(entries) {
      var a, b :| 0 <= a < b < |entries| && entries[a].rdUid.Some? && entries[a].rdUid == entries[b].rdUid;
      if a > 0 { assert rest[a - 1] == entries[a] && rest[b - 1] == entries[b]; }
    }
  }

  /** The roster ids are pairwise distinct exactly when no two entries share one. */
  lemma {:induction false} RdUidsDistinct(entries: seq<Entry>)
    decreases |entries|
    ensures Distinct(RdUids(entries)) <==> !SharesRdUid(entries)
  {
    if entries != [] {
      var rest := entries[1..];
      RdUidsDistinct(rest);
      SharesCons(entries);
      if entries[0].rdUid.Some? {
        var x := entries[0].rdUid.value;
        assert RdUids(entries) == [x] + RdUids(rest);
        DistinctCons(x, RdUids(rest));
        assert x in RdUids(rest) <==> exists b :: 1 <= b < |entries| && entries[b].rdUid == Some(x) by {
          if x in RdUids(rest) {
            var i :| 0 <= i < |rest| && rest[i].rdUid == Some(x);
            assert entries[i + 1] == rest[i];
          }
          if exists b :: 1 <= b < |entries| && entries[b].rdUid == Some(x) {
            var b :| 1 <= b < |entries| && entries[b].rdUid == Some(x);
            assert rest[b - 1] == entries[b];
          }
        }
      } else {
        assert RdUids(entries) == RdUids(rest);
      }
    }
  }

  /** The duplicate check: the number of distinct roster ids must equal the number of roster ids. */
  function CheckUniqueRdUids(entries: seq<Entry>): (r: Result<seq<Entry>, RosterError>)
    ensures r.Failure? <==> SharesRdUid(entries)
    ensures r.Failure? ==> r.error == DuplicateEntry
    ensures r.Success? ==> r.value == entries
  {
    var ids := RdUids(entries);
    DistinctIffSetSize(ids);
    RdUidsDistinct(entries);
    if |set x | x in ids| != |ids| then Failure(DuplicateEntry) else Success(entries)
  }
}
