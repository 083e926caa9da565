/** The extractor's entry point (extract): reject what is not an ILS Ansbach
    fax, normalise it, cut it into sections, then add the address and the
    vehicle fields. Every stage's entries are merged into one result map; the
    first runtime failure stops the stages and is recorded under the log key
    instead, next to whatever the earlier stages already stored. */
module Extractor {
  import opened JavaText
  import Normalizer
  import Segmenter
  import AddressExtraction
  import VehicleExtraction
  import Keys

  /** The text every alarm fax of this control centre contains. */
  const Sender: String := "ILS Ansbach"

  /** The logged description of a failure: the exception class with its
      message for the two failures the extractor raises itself, and the
      exception class alone for a substring out of range. */
  function Diagnostic(f: Failure): (d: String)
    ensures d != []
  {
    match f
    case NullInput => "java.lang.IllegalArgumentException: Input is null"
    case NotAnAlarmFax => "java.lang.IllegalStateException: Seems not to be an alarm fax"
    case IndexOutOfBounds(_, _, _) => "java.lang.StringIndexOutOfBoundsException"
  }

  function SectionEntries(s: Segmenter.Sections): map<Keys.Key, String>
  {
    map[Keys.Location := s.location, Keys.Reason := s.reason,
        Keys.Resources := s.resources, Keys.Remarks := s.remarks]
  }

  function AddressEntries(a: AddressExtraction.Address): map<Keys.Key, String>
  {
    map[Keys.Street := a.street, Keys.House := a.house,
        Keys.PostalCode := a.postalCode, Keys.City := a.city]
  }

  /** The map extract returns for `input` (None is a null reference). */
  function Extraction(input: Option<String>): map<Keys.Key, String>
  {
    if input.None? then map[Keys.Log := Diagnostic(NullInput)]
    else if !Contains(input.value, Sender) then map[Keys.Log := Diagnostic(NotAnAlarmFax)]
    else FromText(Normalizer.ApplyGlobalReplacements(input.value))
  }

  /** The stages after normalisation, on the normalised text. */
  function FromText(text: String): map<Keys.Key, String>
  {
    match Segmenter.DivideByKeywords(text)
    case Err(f) => map[Keys.Log := Diagnostic(f)]
    case Ok(sections) => FromSections(sections)
  }

  /** The section entries, then the address and vehicle stages. */
  function FromSections(sections: Segmenter.Sections): map<Keys.Key, String>
  {
    Staged(SectionEntries(sections), AddressExtraction.ExtractAddress(sections.location),
           VehicleExtraction.VehicleFields(sections.resources))
  }

  /** The address stage's outcome on top of the section entries, then the
      vehicle stage's outcome (which only counts when the address was found). */
  function Staged(divided: map<Keys.Key, String>, address: Result<AddressExtraction.Address>,
                  fields: Result<map<Keys.Key, String>>): map<Keys.Key, String>
  {
    match address
    case Err(f) => divided[Keys.Log := Diagnostic(f)]
    case Ok(a) => Merge(divided + AddressEntries(a), fields)
  }

  /** A stage's outcome on top of the entries already stored: its entries
      (putAll), or the log entry for its failure. */
  function Merge(stored: map<Keys.Key, String>, stage: Result<map<Keys.Key, String>>): map<Keys.Key, String>
  {
    match stage
    case Err(f) => stored[Keys.Log := Diagnostic(f)]
    case Ok(entries) => stored + entries
  }

  method Extract(input: Option<String>) returns (result: map<Keys.Key, String>)
    ensures result == Extraction(input)
  {
    result := map[];
    if input.None? {
      result := result[Keys.Log := Diagnostic(NullInput)];
      return;
    }
    if !Contains(input.value, Sender) {
      result := result[Keys.Log := Diagnostic(NotAnAlarmFax)];
      return;
    }
    var cleanedInput := Normalizer.ApplyGlobalReplacements(input.value);
    assert Extraction(input) == FromText(cleanedInput);

    var divided := Segmenter.DivideByKeywords(cleanedInput);
    if divided.Err? {
      result := result[Keys.Log := Diagnostic(divided.failure)];
      return;
    }
    assert FromText(cleanedInput) == FromSections(divided.value);
    result := result + SectionEntries(divided.value);
    SectionLookup(divided.value);

    var address := AddressExtraction.ExtractAddress(result[Keys.Location]);
    if address.Err? {
      result := result[Keys.Log := Diagnostic(address.failure)];
      return;
    }
    result := result + AddressEntries(address.value);
    LocatedLookup(divided.value, address.value);
    assert FromSections(divided.value) == Merge(result, VehicleExtraction.VehicleFields(divided.value.resources));

    var vehicles := VehicleExtraction.ExtractVehicles(result[Keys.Resources]);
    if vehicles.Err? {
      result := result[Keys.Log := Diagnostic(vehicles.failure)];
      return;
    }
    result := result + vehicles.value;
  }

  /** The section entries merged into the empty map, and the section the
      address stage reads back from them. */
  lemma SectionLookup(s: Segmenter.Sections)
    ensures map[] + SectionEntries(s) == SectionEntries(s)
    ensures SectionEntries(s)[Keys.Location] == s.location
  {
  }

  /** The address entries leave the resources section in place. */
  lemma LocatedLookup(s: Segmenter.Sections, a: AddressExtraction.Address)
    ensures (SectionEntries(s) + AddressEntries(a))[Keys.Resources] == s.resources
  {
  }

  // ---------------------------------------------------------------------
  // Properties of the result map

  /** The input is a fax of this control centre. */
  predicate Accepted(input: Option<String>) {
    input.Some? && Contains(input.value, Sender)
  }

  /** No stage fails. */
  predicate Succeeds(input: Option<String>) {
    && Accepted(input)
    && var divided := Segmenter.DivideByKeywords(Normalizer.ApplyGlobalReplacements(input.value));
    && divided.Ok?
    && AddressExtraction.ExtractAddress(divided.value.location).Ok?
    && VehicleExtraction.VehicleFields(divided.value.resources).Ok?
  }

  /** The entries of a fully extracted fax. */
  const ExtractedKeys: set<Keys.Key> := {Keys.Location, Keys.Reason, Keys.Resources, Keys.Remarks,
                                       Keys.Street, Keys.House, Keys.PostalCode, Keys.City,
                                       Keys.Vehicles, Keys.Roster}

  /** The entries of the sectioning stage, and of the address stage. */
  const SectionKeys: set<Keys.Key> := {Keys.Location, Keys.Reason, Keys.Resources, Keys.Remarks}
  const AddressKeys: set<Keys.Key> := {Keys.Street, Keys.House, Keys.PostalCode, Keys.City}

  /** A failing stage leaves its log entry next to exactly the entries of the
      stages before it: nothing else when the fax cannot be divided, the four
      sections when the address fails, the sections and the address when the
      vehicles fail. */
  lemma FailureKeys(input: Option<String>)
    requires Accepted(input)
    ensures var divided := Segmenter.DivideByKeywords(Normalizer.ApplyGlobalReplacements(input.value));
      divided.Err? ==> Extraction(input) == map[Keys.Log := Diagnostic(divided.failure)]
    ensures var divided := Segmenter.DivideByKeywords(Normalizer.ApplyGlobalReplacements(input.value));
      divided.Ok? && AddressExtraction.ExtractAddress(divided.value.location).Err? ==>
        && Extraction(input).Keys == SectionKeys + {Keys.Log}
        && Extraction(input)[Keys.Log] == Diagnostic(AddressExtraction.ExtractAddress(divided.value.location).failure)
    ensures var divided := Segmenter.DivideByKeywords(Normalizer.ApplyGlobalReplacements(input.value));
      && divided.Ok? && AddressExtraction.ExtractAddress(divided.value.location).Ok?
      && VehicleExtraction.VehicleFields(divided.value.resources).Err? ==>
        && Extraction(input).Keys == SectionKeys + AddressKeys + {Keys.Log}
        && Extraction(input)[Keys.Log] == Diagnostic(VehicleExtraction.VehicleFields(divided.value.resources).failure)
  {
    var text := Normalizer.ApplyGlobalReplacements(input.value);
    assert Extraction(input) == FromText(text);
    TextFailureKeys(text);
  }

  lemma TextFailureKeys(text: String)
    ensures var divided := Segmenter.DivideByKeywords(text);
      divided.Err? ==> FromText(text) == map[Keys.Log := Diagnostic(divided.failure)]
    ensures var divided := Segmenter.DivideByKeywords(text);
      divided.Ok? && AddressExtraction.ExtractAddress(divided.value.location).Err? ==>
        && FromText(text).Keys == SectionKeys + {Keys.Log}
        && FromText(text)[Keys.Log] == Diagnostic(AddressExtraction.ExtractAddress(divided.value.location).failure)
    ensures var divided := Segmenter.DivideByKeywords(text);
      && divided.Ok? && AddressExtraction.ExtractAddress(divided.value.location).Ok?
      && VehicleExtraction.VehicleFields(divided.value.resources).Err? ==>
        && FromText(text).Keys == SectionKeys + AddressKeys + {Keys.Log}
        && FromText(text)[Keys.Log] == Diagnostic(VehicleExtraction.VehicleFields(divided.value.resources).failure)
  {
    var divided := Segmenter.DivideByKeywords(text);
    if divided.Ok? {
      assert FromText(text) == FromSections(divided.value);
      SectionsFailureKeys(divided.value);
    }
  }

  lemma SectionsFailureKeys(sections: Segmenter.Sections)
    ensures AddressExtraction.ExtractAddress(sections.location).Err? ==>
      && FromSections(sections).Keys == SectionKeys + {Keys.Log}
      && FromSections(sections)[Keys.Log] == Diagnostic(AddressExtraction.ExtractAddress(sections.location).failure)
    ensures && AddressExtraction.ExtractAddress(sections.location).Ok?
            && VehicleExtraction.VehicleFields(sections.resources).Err? ==>
      && FromSections(sections).Keys == SectionKeys + AddressKeys + {Keys.Log}
      && FromSections(sections)[Keys.Log] == Diagnostic(VehicleExtraction.VehicleFields(sections.resources).failure)
  {
    StagedKeys(sections, AddressExtraction.ExtractAddress(sections.location),
               VehicleExtraction.VehicleFields(sections.resources));
  }

  lemma StagedKeys(sections: Segmenter.Sections, address: Result<AddressExtraction.Address>,
                   fields: Result<map<Keys.Key, String>>)
    ensures var result := Staged(SectionEntries(sections), address, fields);
      address.Err? ==> result.Keys == SectionKeys + {Keys.Log} && result[Keys.Log] == Diagnostic(address.failure)
    ensures var result := Staged(SectionEntries(sections), address, fields);
      address.Ok? && fields.Err? ==>
        result.Keys == SectionKeys + AddressKeys + {Keys.Log} && result[Keys.Log] == Diagnostic(fields.failure)
  {
    if address.Err? {
      SectionsLogged(sections, address.failure);
    } else if fields.Err? {
      LocatedLogged(sections, address.value, fields.failure);
    }
  }

  lemma SectionsLogged(sections: Segmenter.Sections, f: Failure)
    ensures SectionEntries(sections)[Keys.Log := Diagnostic(f)].Keys == SectionKeys + {Keys.Log}
  {
  }

  lemma LocatedLogged(sections: Segmenter.Sections, address: AddressExtraction.Address, f: Failure)
    ensures (SectionEntries(sections) + AddressEntries(address))[Keys.Log := Diagnostic(f)].Keys
            == SectionKeys + AddressKeys + {Keys.Log}
  {
  }

  /** A null input or a text without the sender gives the log entry alone. */
  lemma RejectedInputIsLoggedAlone(input: Option<String>)
    requires !Accepted(input)
    ensures Extraction(input).Keys == {Keys.Log}
    ensures Extraction(input)[Keys.Log] == Diagnostic(if input.None? then NullInput else NotAnAlarmFax)
  {
  }

  /** The empty text and the null reference each give a map of one entry. */
  lemma EmptyAndNullGiveOneEntry()
    ensures |Extraction(None)| == 1
    ensures |Extraction(Some(""))| == 1 && Extraction(Some(""))[Keys.Log] == Diagnostic(NotAnAlarmFax)
  {
    assert !Contains("", Sender);
  }

  /** A fully extracted fax has exactly the ten entries of its four sections,
      its address and its vehicles, and no log entry. */
  lemma SuccessHasTenEntries(input: Option<String>)
    requires Succeeds(input)
    ensures Extraction(input).Keys == ExtractedKeys
    ensures |Extraction(input)| == 10
    ensures Keys.Log !in Extraction(input)
  {
    var sections, address, vehicles := SuccessfulStages(input);
    VehicleExtraction.VehicleFieldsKeys(sections.resources);
    MergedKeys(sections, address, vehicles);
    ExtractedKeysCount();
  }

  /** The stages of a successful extraction, and the map they build. */
  lemma SuccessfulStages(input: Option<String>)
    returns (sections: Segmenter.Sections, address: AddressExtraction.Address, vehicles: map<Keys.Key, String>)
    requires Succeeds(input)
    ensures Segmenter.DivideByKeywords(Normalizer.ApplyGlobalReplacements(input.value)) == Ok(sections)
    ensures AddressExtraction.ExtractAddress(sections.location) == Ok(address)
    ensures VehicleExtraction.VehicleFields(sections.resources) == Ok(vehicles)
    ensures Extraction(input) == SectionEntries(sections) + AddressEntries(address) + vehicles
  {
    var text := Normalizer.ApplyGlobalReplacements(input.value);
    sections := Segmenter.DivideByKeywords(text).value;
    address := AddressExtraction.ExtractAddress(sections.location).value;
    vehicles := VehicleExtraction.VehicleFields(sections.resources).value;
    assert Extraction(input) == FromText(text);
    assert FromText(text) == FromSections(sections);
  }

  lemma MergedKeys(sections: Segmenter.Sections, address: AddressExtraction.Address, vehicles: map<Keys.Key, String>)
    requires vehicles.Keys == {Keys.Vehicles, Keys.Roster}
    ensures (SectionEntries(sections) + AddressEntries(address) + vehicles).Keys == ExtractedKeys
  {
  }

  lemma ExtractedKeysCount()
    ensures |ExtractedKeys| == 10 && Keys.Log !in ExtractedKeys
  {
  }

  /** The log entry is there exactly when some stage failed. */
  lemma LogMeansFailure(input: Option<String>)
    ensures Keys.Log in Extraction(input) <==> !Succeeds(input)
  {
    if Succeeds(input) {
      SuccessHasTenEntries(input);
    }
  }

  /** A failing stage does not undo the earlier ones: the section entries stay
      once the fax is divided, and the address entries once the address is
      found. */
  lemma EarlierEntriesSurvive(input: Option<String>)
    requires Accepted(input)
    requires Segmenter.DivideByKeywords(Normalizer.ApplyGlobalReplacements(input.value)).Ok?
    ensures var sections := Segmenter.DivideByKeywords(Normalizer.ApplyGlobalReplacements(input.value)).value;
      forall key :: key in SectionEntries(sections) ==>
        key in Extraction(input) && Extraction(input)[key] == SectionEntries(sections)[key]
    ensures var sections := Segmenter.DivideByKeywords(Normalizer.ApplyGlobalReplacements(input.value)).value;
      AddressExtraction.ExtractAddress(sections.location).Ok? ==>
        var address := AddressExtraction.ExtractAddress(sections.location).value;
        forall key :: key in AddressEntries(address) ==>
          key in Extraction(input) && Extraction(input)[key] == AddressEntries(address)[key]
  {
    var text := Normalizer.ApplyGlobalReplacements(input.value);
    var sections := Segmenter.DivideByKeywords(text).value;
    assert Extraction(input) == FromText(text);
    assert FromText(text) == FromSections(sections);
    SectionsSurvive(sections);
  }

  lemma SectionsSurvive(sections: Segmenter.Sections)
    ensures forall key :: key in SectionEntries(sections) ==>
              key in FromSections(sections) && FromSections(sections)[key] == SectionEntries(sections)[key]
    ensures AddressExtraction.ExtractAddress(sections.location).Ok? ==>
              var address := AddressExtraction.ExtractAddress(sections.location).value;
              forall key :: key in AddressEntries(address) ==>
                key in FromSections(sections) && FromSections(sections)[key] == AddressEntries(address)[key]
  {
    var fields := VehicleExtraction.VehicleFields(sections.resources);
    if fields.Ok? {
      VehicleExtraction.VehicleFieldsKeys(sections.resources);
    }
    StagedEntriesSurvive(sections, AddressExtraction.ExtractAddress(sections.location), fields);
  }

  lemma StagedEntriesSurvive(sections: Segmenter.Sections, address: Result<AddressExtraction.Address>,
                             fields: Result<map<Keys.Key, String>>)
    requires fields.Ok? ==> fields.value.Keys == {Keys.Vehicles, Keys.Roster}
    ensures var result := Staged(SectionEntries(sections), address, fields);
      forall key :: key in SectionEntries(sections) ==>
        key in result && result[key] == SectionEntries(sections)[key]
    ensures var result := Staged(SectionEntries(sections), address, fields);
      address.Ok? ==>
        forall key :: key in AddressEntries(address.value) ==>
          key in result && result[key] == AddressEntries(address.value)[key]
  {
    if address.Ok? {
      LocatedEntriesSurvive(sections, address.value, fields);
    }
  }

  lemma LocatedEntriesSurvive(sections: Segmenter.Sections, address: AddressExtraction.Address,
                              stage: Result<map<Keys.Key, String>>)
    requires stage.Ok? ==> stage.value.Keys == {Keys.Vehicles, Keys.Roster}
    ensures var merged := Merge(SectionEntries(sections) + AddressEntries(address), stage);
      && (forall key :: key in SectionEntries(sections) ==> key in merged && merged[key] == SectionEntries(sections)[key])
      && (forall key :: key in AddressEntries(address) ==> key in merged && merged[key] == AddressEntries(address)[key])
  {
    var located := SectionEntries(sections) + AddressEntries(address);
    MergeKeeps(located, stage);
    LocatedHoldsBoth(sections, address);
  }

  lemma LocatedHoldsBoth(sections: Segmenter.Sections, address: AddressExtraction.Address)
    ensures var located := SectionEntries(sections) + AddressEntries(address);
      && (forall key :: key in SectionEntries(sections) ==> key in located && located[key] == SectionEntries(sections)[key])
      && (forall key :: key in AddressEntries(address) ==> key in located && located[key] == AddressEntries(address)[key])
      && (forall key :: key in located ==> key !in {Keys.Vehicles, Keys.Roster, Keys.Log})
  {
  }

  /** The vehicle stage keeps every entry other than its own two and the log. */
  lemma MergeKeeps(stored: map<Keys.Key, String>, stage: Result<map<Keys.Key, String>>)
    requires stage.Ok? ==> stage.value.Keys == {Keys.Vehicles, Keys.Roster}
    ensures forall key :: key in stored && key !in {Keys.Vehicles, Keys.Roster, Keys.Log} ==>
              key in Merge(stored, stage) && Merge(stored, stage)[key] == stored[key]
  {
  }

  /** On a fully extracted fax the postal code is digits only and the
      remarks are trimmed and free of dashes. */
  lemma ExtractedValuesAreClean(input: Option<String>)
    requires Succeeds(input)
    ensures AddressExtraction.AllDigits(Extraction(input)[Keys.PostalCode])
    ensures IsTrimmed(Extraction(input)[Keys.Remarks])
    ensures forall i :: 0 <= i < |Extraction(input)[Keys.Remarks]| ==> Extraction(input)[Keys.Remarks][i] != '-'
  {
    var sections, address, vehicles := SuccessfulStages(input);
    VehicleExtraction.VehicleFieldsKeys(sections.resources);
    MergedLookup(sections, address, vehicles);
    StoredRemarksAreClean(Normalizer.ApplyGlobalReplacements(input.value), sections);
    StoredPostalCodeIsDigits(sections.location, address);
  }

  lemma MergedLookup(sections: Segmenter.Sections, address: AddressExtraction.Address, vehicles: map<Keys.Key, String>)
    requires vehicles.Keys == {Keys.Vehicles, Keys.Roster}
    ensures (SectionEntries(sections) + AddressEntries(address) + vehicles)[Keys.PostalCode] == address.postalCode
    ensures (SectionEntries(sections) + AddressEntries(address) + vehicles)[Keys.Remarks] == sections.remarks
  {
  }

  lemma StoredRemarksAreClean(text: String, sections: Segmenter.Sections)
    requires Segmenter.DivideByKeywords(text) == Ok(sections)
    ensures IsTrimmed(sections.remarks)
    ensures forall i :: 0 <= i < |sections.remarks| ==> sections.remarks[i] != '-'
  {
    Segmenter.RemarksAreClean(text);
  }

  lemma StoredPostalCodeIsDigits(location: String, address: AddressExtraction.Address)
    requires AddressExtraction.ExtractAddress(location) == Ok(address)
    ensures AddressExtraction.AllDigits(address.postalCode)
  {
    AddressExtraction.AddressValue(location);
    AddressExtraction.PostalCodeIsCityDigits(
      location[IndexOf(location, "Straße:") + 7..IndexOf(location, "Haus-Nr.:")],
      location[IndexOf(location, "Haus-Nr.:") + 9..IndexOf(location, "Ort:")],
      location[IndexOf(location, "Ort:") + 4..IndexOf(location, "Objekt:")]);
  }
}
