/** Street, house number, postal code and city taken from the location
    section by the harmonised labels `Straße:`, `Haus-Nr.:`, `Ort:` and
    `Objekt:` (extractAddress). */
module AddressExtraction {
  import opened JavaText
  import opened Patterns

  datatype Address = Address(street: String, house: String, postalCode: String, city: String)

  /** A place name that repeats the municipality after " - " keeps only the
      part before the first " - ". */
  function CutAtDash(city: String): (r: String)
    ensures |r| <= |city| && r == city[..|r|]
    ensures !Contains(r, " - ")
    ensures !Contains(city, " - ") ==> r == city
    ensures Contains(city, " - ") ==> |r| == IndexOf(city, " - ")
  {
    if Contains(city, " - ") then
      var cut := city[..IndexOf(city, " - ")];
      PrefixOccurrence(city, " - ", |cut|);
      cut
    else city
  }

  /** replaceAll(postal, ""): the postal code, being digits only, is taken
      literally by the regex engine; the empty pattern matches between all
      characters and leaves the text as it is. */
  function RemovePostal(city: String, postal: String): String
  {
    if postal == [] then city else ReplaceAll(city, Literal(postal, false), [])
  }

  function ExtractAddress(location: String): (r: Result<Address>)
    ensures r.Ok? <==> LabelsInOrder(location)
  {
    var idxStrasse := IndexOf(location, "Straße:");
    var idxHausNr := IndexOf(location, "Haus-Nr.:");
    var idxOrt := IndexOf(location, "Ort:");
    var idxObjekt := IndexOf(location, "Objekt:");
    var street :- Substring(location, idxStrasse + 7, idxHausNr);
    var house :- Substring(location, idxHausNr + 9, idxOrt);
    var city :- Substring(location, idxOrt + 4, idxObjekt);
    Ok(AddressFromTexts(street, house, city))
  }

  /** Each label's value ends where the next label starts. A missing
      `Straße:` is not caught: its index -1 plus the label length 7 makes the
      street start at position 6. */
  predicate LabelsInOrder(location: String) {
    && IndexOf(location, "Straße:") + 7 <= IndexOf(location, "Haus-Nr.:")
    && IndexOf(location, "Haus-Nr.:") + 9 <= IndexOf(location, "Ort:")
    && IndexOf(location, "Ort:") + 4 <= IndexOf(location, "Objekt:")
  }

  /** The second half of extractAddress: the city is cut at " - ", its digits
      become the postal code and are removed from it, and all four values
      are trimmed. */
  function AddressFromTexts(street: String, house: String, place: String): (a: Address)
    ensures IsTrimmed(a.street) && IsTrimmed(a.house) && IsTrimmed(a.postalCode) && IsTrimmed(a.city)
  {
    var city := CutAtDash(place);
    var postal := ReplaceAll(city, Run(NonDigit), []);
    var city := RemovePostal(city, postal);
    Address(Trim(street), Trim(house), Trim(postal), Trim(city))
  }

  // ---------------------------------------------------------------------
  // Reference definitions

  /** The digits of `s`, in order. */
  function Digits(s: String): String
  {
    if s == [] then [] else (if IsDigit(s[0]) then [s[0]] else []) + Digits(s[1..])
  }

  predicate AllDigits(s: String) {
    forall i :: 0 <= i < |s| ==> IsDigit(s[i])
  }

  predicate NoDigits(s: String) {
    forall i :: 0 <= i < |s| ==> !IsDigit(s[i])
  }

  // ---------------------------------------------------------------------
  // Helpers about occurrences and digits

  lemma {:induction false} DigitsAppend(a: String, b: String)
    ensures Digits(a + b) == Digits(a) + Digits(b)
    decreases |a|
  {
    if a == [] {
      assert a + b == b;
    } else {
      var ab := a + b;
      assert ab[0] == a[0];
      assert ab[1..] == a[1..] + b;
      DigitsAppend(a[1..], b);
      assert Digits(ab) == (if IsDigit(a[0]) then [a[0]] else []) + Digits(a[1..] + b);
    }
  }

  lemma {:induction false} DigitsAreDigits(s: String)
    ensures AllDigits(Digits(s)) && |Digits(s)| <= |s|
    decreases |s|
  {
    if s != [] {
      DigitsAreDigits(s[1..]);
    }
  }

  lemma {:induction false} DigitsOfDigits(s: String)
    requires AllDigits(s)
    ensures Digits(s) == s
    decreases |s|
  {
    if s != [] {
      DigitsOfDigits(s[1..]);
    }
  }

  lemma {:induction false} NoDigitsFromEmpty(s: String)
    requires Digits(s) == []
    ensures NoDigits(s)
    decreases |s|
  {
    if s != [] {
      NoDigitsFromEmpty(s[1..]);
    }
  }

  lemma AllDigitsTrimmed(s: String)
    requires AllDigits(s)
    ensures Trim(s) == s
  {
    if s != [] {
      assert !IsTrimmable(s[0]) && !IsTrimmable(s[|s| - 1]);
    }
  }

  /** Removing the non-digit runs leaves exactly the digits. */
  lemma {:induction false} PostalCodeIsDigits(s: String)
    ensures ReplaceAll(s, Run(NonDigit), []) == Digits(s)
    decreases |s|
  {
    if s != [] {
      var m := MatchLength(Run(NonDigit), s);
      if m > 0 {
        PostalCodeIsDigits(s[m..]);
        assert s == s[..m] + s[m..];
        DigitsAppend(s[..m], s[m..]);
        assert Digits(s[..m]) == [] by {
          NonDigitRun(s[..m]);
        }
      } else {
        PostalCodeIsDigits(s[1..]);
      }
    }
  }

  lemma {:induction false} NonDigitRun(s: String)
    requires NoDigits(s)
    ensures Digits(s) == []
    decreases |s|
  {
    if s != [] {
      NonDigitRun(s[1..]);
    }
  }

  /** A case-sensitive literal matches exactly where it occurs. */
  lemma LiteralMatch(s: String, p: String, j: nat)
    requires p != [] && j <= |s|
    ensures MatchLength(Literal(p, false), s[j..]) > 0 <==> OccursAt(s, p, j)
  {
    if OccursAt(s, p, j) {
      assert forall i :: 0 <= i < |p| ==> s[j..][i] == s[j..j + |p|][i];
    }
    if StartsWithText(s[j..], p, false) {
      assert s[j..j + |p|] == s[j..][..|p|];
    }
  }

  lemma NoDigitsNoOccurrence(s: String, p: String)
    requires NoDigits(s) && p != [] && AllDigits(p)
    ensures forall k :: !OccursAt(s, p, k)
  {
    forall k ensures !OccursAt(s, p, k) {
      if 0 <= k && k + |p| <= |s| {
        assert s[k..k + |p|][0] == s[k];
      }
    }
  }

  lemma NoMatchWithoutOccurrence(s: String, p: String)
    requires p != [] && forall k :: !OccursAt(s, p, k)
    ensures ReplaceAll(s, Literal(p, false), []) == s
  {
    forall j | 0 <= j < |s| ensures MatchLength(Literal(p, false), s[j..]) == 0 {
      LiteralMatch(s, p, j);
    }
    NoMatchIsIdentity(s, Literal(p, false), []);
  }

  /** When the digit string occurs in the city, it is the city's only digit
      block: no digit comes before or after it. */
  lemma OnlyDigitBlock(c: String, k: nat)
    requires OccursAt(c, Digits(c), k)
    ensures NoDigits(c[..k]) && NoDigits(c[k + |Digits(c)|..])
  {
    var p := Digits(c);
    var e := k + |p|;
    DigitsAreDigits(c);
    assert c == c[..k] + (c[k..e] + c[e..]);
    DigitsAppend(c[..k], c[k..e] + c[e..]);
    DigitsAppend(c[k..e], c[e..]);
    DigitsOfDigits(c[k..e]);
    NoDigitsFromEmpty(c[..k]);
    NoDigitsFromEmpty(c[e..]);
  }

  /** A digit string cannot match where there is no digit. */
  lemma NoMatchBefore(c: String, p: String, k: nat)
    requires k <= |c| && NoDigits(c[..k]) && p != [] && AllDigits(p)
    ensures forall j :: 0 <= j < k ==> MatchLength(Literal(p, false), c[j..]) == 0
  {
    forall j | 0 <= j < k ensures MatchLength(Literal(p, false), c[j..]) == 0 {
      assert c[j..][0] == c[..k][j];
      assert !SameChar(c[j..][0], p[0], false);
    }
  }

  /** Removing the only digit block leaves no digit at all. */
  lemma RemoveOnlyBlock(c: String, p: String, k: nat)
    requires p != [] && AllDigits(p) && OccursAt(c, p, k)
    requires NoDigits(c[..k]) && NoDigits(c[k + |p|..])
    ensures NoDigits(ReplaceAll(c, Literal(p, false), []))
  {
    RemoveBlockValue(c, p, k);
    NoDigitsConcat(c[..k], c[k + |p|..]);
  }

  /** The removal cuts exactly the block at `k` out of the city. */
  lemma RemoveBlockValue(c: String, p: String, k: nat)
    requires p != [] && AllDigits(p) && OccursAt(c, p, k)
    requires NoDigits(c[..k]) && NoDigits(c[k + |p|..])
    ensures ReplaceAll(c, Literal(p, false), []) == c[..k] + c[k + |p|..]
  {
    var lit := Literal(p, false);
    var tail := c[k + |p|..];
    NoMatchBefore(c, p, k);
    KeptPrefix(c, lit, [], k);
    RemoveAtMatch(c, p, k);
    NoDigitsNoOccurrence(tail, p);
    NoMatchWithoutOccurrence(tail, p);
  }

  lemma NoDigitsConcat(a: String, b: String)
    requires NoDigits(a) && NoDigits(b)
    ensures NoDigits(a + b)
  {
    forall i | 0 <= i < |a + b| ensures !IsDigit((a + b)[i]) {
      if i < |a| {
        assert (a + b)[i] == a[i];
      } else {
        assert (a + b)[i] == b[i - |a|];
      }
    }
  }

  lemma RemoveAtMatch(c: String, p: String, k: nat)
    requires p != [] && OccursAt(c, p, k)
    ensures ReplaceAll(c[k..], Literal(p, false), []) == ReplaceAll(c[k + |p|..], Literal(p, false), [])
  {
    var t := c[k..];
    LiteralMatch(c, p, k);
    var m := MatchLength(Literal(p, false), t);
    assert m == |p|;
    MatchStep(t, Literal(p, false), []);
    assert t[m..] == c[k + |p|..];
  }

  // ---------------------------------------------------------------------
  // Properties of the extraction

  /** The values are the texts between the labels. */
  lemma AddressValue(location: String)
    requires ExtractAddress(location).Ok?
    ensures ExtractAddress(location).value == AddressFromTexts(
      location[IndexOf(location, "Straße:") + 7..IndexOf(location, "Haus-Nr.:")],
      location[IndexOf(location, "Haus-Nr.:") + 9..IndexOf(location, "Ort:")],
      location[IndexOf(location, "Ort:") + 4..IndexOf(location, "Objekt:")])
  {
  }

  /** The street and house number are the trimmed texts after their labels,
      up to the next label. */
  lemma StreetAndHouse(location: String)
    requires ExtractAddress(location).Ok?
    ensures ExtractAddress(location).value.street ==
              Trim(location[IndexOf(location, "Straße:") + 7..IndexOf(location, "Haus-Nr.:")])
    ensures ExtractAddress(location).value.house ==
              Trim(location[IndexOf(location, "Haus-Nr.:") + 9..IndexOf(location, "Ort:")])
  {
    AddressValue(location);
  }

  /** Without `Haus-Nr.:`, `Ort:` or `Objekt:` the extraction fails. */
  lemma MissingLabelFails(location: String)
    requires !Contains(location, "Haus-Nr.:") || !Contains(location, "Ort:") || !Contains(location, "Objekt:")
    ensures ExtractAddress(location).Err?
  {
  }

  /** Without `Straße:` the street is read from position 6 on. */
  lemma MissingStreetLabel(location: String)
    requires !Contains(location, "Straße:") && ExtractAddress(location).Ok?
    ensures ExtractAddress(location).value.street == Trim(location[6..IndexOf(location, "Haus-Nr.:")])
  {
    StreetAndHouse(location);
  }

  /** The postal code is exactly the digits of the city text, in order. */
  lemma PostalCodeIsCityDigits(street: String, house: String, place: String)
    ensures AddressFromTexts(street, house, place).postalCode == Digits(CutAtDash(place))
    ensures AllDigits(AddressFromTexts(street, house, place).postalCode)
  {
    var c := CutAtDash(place);
    PostalCodeIsDigits(c);
    DigitsAreDigits(c);
    AllDigitsTrimmed(Digits(c));
  }

  /** The postal code no longer occurs in the city; without a postal code
      the city is the trimmed city text. */
  lemma CityLosesPostalCode(street: String, house: String, place: String)
    ensures var a := AddressFromTexts(street, house, place);
      && (a.postalCode != [] ==> !Contains(a.city, a.postalCode))
      && (a.postalCode == [] ==> a.city == Trim(CutAtDash(place)))
  {
    var c := CutAtDash(place);
    var p := Digits(c);
    PostalCodeIsCityDigits(street, house, place);
    PostalCodeIsDigits(c);
    if p != [] {
      DigitsAreDigits(c);
      var removed := RemovePostal(c, p);
      RemovedHasNoPostal(c);
      var lo, hi := TrimIsSlice(removed);
      forall k | OccursAt(Trim(removed), p, k) ensures OccursAt(removed, p, lo + k) {
        SliceOccurrence(removed, lo, hi, p, k);
      }
    }
  }

  /** Removing the digit string of the city from it leaves no occurrence of it. */
  lemma RemovedHasNoPostal(c: String)
    requires Digits(c) != []
    ensures forall k :: !OccursAt(RemovePostal(c, Digits(c)), Digits(c), k)
  {
    var p := Digits(c);
    DigitsAreDigits(c);
    if exists k :: OccursAt(c, p, k) {
      var k :| OccursAt(c, p, k);
      OnlyDigitBlock(c, k);
      RemoveOnlyBlock(c, p, k);
      NoDigitsNoOccurrence(RemovePostal(c, p), p);
    } else {
      NoMatchWithoutOccurrence(c, p);
    }
  }

  /** The city is the cut place name with its digit block cut out when the
      digits form one block, and the cut place name itself otherwise (also
      when it has no digits), trimmed either way. */
  lemma CityValue(street: String, house: String, place: String)
    ensures var c := CutAtDash(place); var p := Digits(c);
      && (Contains(c, p) ==>
            AddressFromTexts(street, house, place).city == Trim(c[..IndexOf(c, p)] + c[IndexOf(c, p) + |p|..]))
      && (!Contains(c, p) ==> AddressFromTexts(street, house, place).city == Trim(c))
  {
    CityIsTrimmedRemoval(street, house, place);
    RemovePostalValue(CutAtDash(place));
  }

  lemma CityIsTrimmedRemoval(street: String, house: String, place: String)
    ensures AddressFromTexts(street, house, place).city ==
              Trim(RemovePostal(CutAtDash(place), Digits(CutAtDash(place))))
  {
    PostalCodeIsDigits(CutAtDash(place));
  }

  lemma RemovePostalValue(c: String)
    ensures var p := Digits(c);
      && (Contains(c, p) ==> RemovePostal(c, p) == c[..IndexOf(c, p)] + c[IndexOf(c, p) + |p|..])
      && (!Contains(c, p) ==> RemovePostal(c, p) == c)
  {
    var p := Digits(c);
    if p == [] {
      assert OccursAt(c, p, 0);
      assert c[..0] + c[0..] == c;
    } else if Contains(c, p) {
      RemoveFoundBlock(c, IndexOf(c, p));
    } else {
      NoMatchWithoutOccurrence(c, p);
    }
  }

  lemma RemoveFoundBlock(c: String, k: nat)
    requires Digits(c) != [] && OccursAt(c, Digits(c), k)
    ensures RemovePostal(c, Digits(c)) == c[..k] + c[k + |Digits(c)|..]
  {
    DigitsAreDigits(c);
    OnlyDigitBlock(c, k);
    RemoveBlockValue(c, Digits(c), k);
  }
}
