# ILS Ansbach alarm fax extractor, modelled in Dafny

The extractor reads the OCR text of an alarm fax from the integrated control
centre (ILS) Ansbach and turns it into key/value fields for the FE2 alarm
server. It works in four stages:

1. Normalise the OCR text: collapse dash and whitespace runs, fix common
   misreadings, and harmonise the address labels.
2. Cut the text into four sections by its headings: location (EINSATZORT),
   reason (EINSATZGRUND), resources (EINSATZMITTEL) and remarks (BEMERKUNG).
3. Read street, house number, postal code and city from the location
   section.
4. Read two fields from the resources section: the allow-listed vehicles,
   and a roster with one line per alarmed unit.

Any runtime failure stops the stages. It is recorded under the log key, next
to the entries the earlier stages already stored.

Modules, one per file:

- `JavaText` (`javatext.dfy`): the parts of `java.lang.String` the extractor
  uses. These are `indexOf`, `lastIndexOf`, `contains` and `trim`, plus
  `substring` with its out-of-range exception as an `Err`.
- `Patterns` (`patterns.dfy`): the few regular expressions the extractor
  uses. Each is a pattern shape with its own match function: a run of a
  character class, a literal (optionally ASCII case-insensitive), and
  `name\s*:\s*`. It also holds the left-to-right scan that `replaceAll` and
  `split` perform with them.
- `Normalizer` (`normalizer.dfy`): `applyGlobalReplacements`, as a
  composition of those replacements.
- `Segmenter` (`segmenter.dfy`): `divideByKeywords`.
- `AddressExtraction` (`address.dfy`): `extractAddress`.
- `VehicleExtraction` (`vehicles.dfy`): `extractVehicles`. It is a method
  with the allow-list checks and the loop over the unit fragments, proved
  equal to the function `VehicleFields`. The Java method is split into two
  helper methods, `ListedVehicles` (the allow-list checks) and `RosterText`
  (the loop), each proved against its own specification function.
- `Keys` (`keys.dfy`): the result map's keys, as a datatype, with their key
  strings.
- `Extractor` (`extractor.dfy`): `extract`. It is a method that fills the
  result map stage by stage with early returns, proved equal to the function
  `Extraction`.

How the Java code is represented:

- A Java `null` input is `None`.
- A `RuntimeException` is an `Err` value that carries the failure.
- The result `HashMap` is a `map<Keys.Key, String>`.

Where the code and its documented intent differ, the model follows the code:

- A missing `Straße:` alone never makes the address stage fail. `indexOf`
  gives -1, so the street is read from position 6 on
  (`AddressExtraction.MissingStreetLabel`). The section starts with its
  10-character heading `EINSATZORT`, so `Haus-Nr.:` cannot come before
  position 6.
- Roster lines come in document order, one per fragment that gives a line.
  Nothing sorts them (`VehicleExtraction.LinesInFragmentOrder`).

## Model

| member | source | states |
|---|---|---|
| JavaText.IndexOf | src/main/java/de/alamos/fe2/external/impl/ILSAnsbach.java:87-92 | the result is -1 or a position where the pattern occurs, and the pattern occurs nowhere before it |
| JavaText.LastIndexOf | src/main/java/de/alamos/fe2/external/impl/ILSAnsbach.java:176 | the result is -1 or a position holding the character, and no later position holds it |
| JavaText.Substring | src/main/java/de/alamos/fe2/external/impl/ILSAnsbach.java:99-102 | substring succeeds exactly when 0 <= begin <= end <= length, and then yields the characters from begin up to end |
| JavaText.TrimIsSlice | src/main/java/de/alamos/fe2/external/impl/ILSAnsbach.java:105 | trim returns a slice of its argument; everything cut off at either end is up to U+0020, and the slice neither starts nor ends with such a character |
| JavaText.Utf16Length | src/main/java/de/alamos/fe2/external/impl/ILSAnsbach.java:189 | `length()` counts at least one and at most two UTF-16 code units per character |
| JavaText.Utf16LengthOfBmp | src/main/java/de/alamos/fe2/external/impl/ILSAnsbach.java:189 | `length()` equals the number of characters exactly when every character lies in the Basic Multilingual Plane |
| Patterns.RunLength | src/main/java/de/alamos/fe2/external/impl/ILSAnsbach.java:67-68 | a greedy `[k]*` takes a prefix made only of class members, and the character after it is not one |
| Patterns.CollapseRuns | src/main/java/de/alamos/fe2/external/impl/ILSAnsbach.java:67-68 | after runs of a class are replaced by one member, no two members are neighbours and every member left is that one character |
| Patterns.ReplaceAllEliminates | src/main/java/de/alamos/fe2/external/impl/ILSAnsbach.java:69 | when every character of a kind starts a match and the replacement has none of that kind, the output has none of it |
| Patterns.ReplaceAllKeepsLocal | src/main/java/de/alamos/fe2/external/impl/ILSAnsbach.java:70-80 | a clean replacement that forms no bad pair with its neighbours keeps a text free of bad characters and bad pairs |
| Patterns.NoMatchIsIdentity | src/main/java/de/alamos/fe2/external/impl/ILSAnsbach.java:133 | replaceAll leaves a text in which the pattern matches nowhere unchanged |
| Patterns.KeptPrefix | src/main/java/de/alamos/fe2/external/impl/ILSAnsbach.java:67-80 | positions where no match starts are copied to the output unchanged |
| Patterns.SplitPiecesHaveNoDelimiter | src/main/java/de/alamos/fe2/external/impl/ILSAnsbach.java:161 | no piece produced by the split scan contains a match of the delimiter |
| Patterns.SplitUndone | src/main/java/de/alamos/fe2/external/impl/ILSAnsbach.java:161 | weaving the split scan's pieces back together with the delimiter matches between them gives the text again; `split` keeps a prefix of those pieces and drops only empty ones |
| Patterns.SplitWithoutMatch | src/main/java/de/alamos/fe2/external/impl/ILSAnsbach.java:161 | a text in which the delimiter matches nowhere splits into itself alone |
| Patterns.ReplaceAllKeepsOut | src/main/java/de/alamos/fe2/external/impl/ILSAnsbach.java:69-74 | replaceAll puts a text in nowhere when the replacement cannot overlap it and no copied position starts it |
| Patterns.ReplaceAllWithItself | src/main/java/de/alamos/fe2/external/impl/ILSAnsbach.java:77-80 | replaceAll is the identity when every match is already the replacement text |
| Patterns.CollapsedIsFixed | src/main/java/de/alamos/fe2/external/impl/ILSAnsbach.java:67-68 | collapsing runs of a class again changes nothing once no two members are neighbours and every member is the replacement character |
| Normalizer.NormalisedText | src/main/java/de/alamos/fe2/external/impl/ILSAnsbach.java:62-83 | the normalised text has no `=`, no two neighbouring dashes and no whitespace other than single spaces, whatever the later fixes insert |
| Normalizer.HarmonizeRemovesLoose | src/main/java/de/alamos/fe2/external/impl/ILSAnsbach.java:77-80 | harmonising one label removes `label :` and `label: `, and harmonising another label brings neither back |
| Normalizer.HarmonizedHasNoLooseLabel | src/main/java/de/alamos/fe2/external/impl/ILSAnsbach.java:77-80 | after the four harmonising replacements, no address label is followed by ` :` or `: ` |
| Normalizer.LabelMatchShape | src/main/java/de/alamos/fe2/external/impl/ILSAnsbach.java:77-80 | in single-spaced text, a match of `name\s*:\s*` is `name :`, `name: ` or exactly `name:` |
| Normalizer.HarmonizedLabelsAreExact | src/main/java/de/alamos/fe2/external/impl/ILSAnsbach.java:62-83 | wherever an address label pattern matches in the normalised text, it matches exactly `label:` |
| Normalizer.MisreadingsCannotOverlap | src/main/java/de/alamos/fe2/external/impl/ILSAnsbach.java:70-80 | no misreading can overlap a correction or a harmonised label the later replacements put in |
| Normalizer.FixMisreadingsLeavesNone | src/main/java/de/alamos/fe2/external/impl/ILSAnsbach.java:70-74 | after the five corrections the text holds none of the misreadings |
| Normalizer.NoMisreadingLeft | src/main/java/de/alamos/fe2/external/impl/ILSAnsbach.java:62-83 | the normalised text holds none of the misreadings |
| Normalizer.FixMisreadingsFixed | src/main/java/de/alamos/fe2/external/impl/ILSAnsbach.java:67-74 | the clean-up changes nothing on a text that is already free of runs, `=` and misreadings |
| Normalizer.LabelMatchesAreExact | src/main/java/de/alamos/fe2/external/impl/ILSAnsbach.java:77-80 | in the normalised text every match of an address label pattern is exactly `label:` |
| Normalizer.HarmonizeLabelsFixed | src/main/java/de/alamos/fe2/external/impl/ILSAnsbach.java:77-80 | harmonising the labels of a normalised text again changes nothing |
| Normalizer.ReplacementsAreIdempotent | src/main/java/de/alamos/fe2/external/impl/ILSAnsbach.java:62-83 | normalising a normalised text changes nothing |
| Segmenter.LocationEnd | src/main/java/de/alamos/fe2/external/impl/ILSAnsbach.java:88-97 | the location section ends at ZIELORT, or at EINSATZGRUND when the text has no ZIELORT |
| Segmenter.DivideByKeywords | src/main/java/de/alamos/fe2/external/impl/ILSAnsbach.java:85-112 | the cut succeeds exactly when all five headings are present and their first occurrences are in the order the cuts need |
| Segmenter.RemarksHeadingFits | src/main/java/de/alamos/fe2/external/impl/ILSAnsbach.java:102-105 | BEMERKUNG and ENDE FAX cannot overlap, so `substring(9)` on the remarks never fails |
| Segmenter.DividedSections | src/main/java/de/alamos/fe2/external/impl/ILSAnsbach.java:99-105 | the four sections are the texts between the first occurrences of the headings, and the remarks are cleaned after their 9-character heading |
| Segmenter.SectionsFollowHeadings | src/main/java/de/alamos/fe2/external/impl/ILSAnsbach.java:87-101 | each section starts with its own heading and ends right before the first occurrence of the next one |
| Segmenter.RemarksAreClean | src/main/java/de/alamos/fe2/external/impl/ILSAnsbach.java:105 | the remarks hold no dash and are trimmed |
| Segmenter.RemarksWithoutDashAreTrimmed | src/main/java/de/alamos/fe2/external/impl/ILSAnsbach.java:105 | remarks without dashes are only trimmed |
| AddressExtraction.ExtractAddress | src/main/java/de/alamos/fe2/external/impl/ILSAnsbach.java:114-140 | the address stage succeeds exactly when each label's value starts no later than the next label |
| AddressExtraction.CutAtDash | src/main/java/de/alamos/fe2/external/impl/ILSAnsbach.java:127-129 | the city text is cut exactly at its first ` - `, and is kept whole when it has none |
| AddressExtraction.AddressFromTexts | src/main/java/de/alamos/fe2/external/impl/ILSAnsbach.java:126-139 | street, house number, postal code and city are all trimmed |
| AddressExtraction.AddressValue | src/main/java/de/alamos/fe2/external/impl/ILSAnsbach.java:117-124 | the values are the texts between the labels |
| AddressExtraction.StreetAndHouse | src/main/java/de/alamos/fe2/external/impl/ILSAnsbach.java:122-137 | street and house number are the trimmed texts after their labels, up to the next label |
| AddressExtraction.MissingLabelFails | src/main/java/de/alamos/fe2/external/impl/ILSAnsbach.java:118-124 | without `Haus-Nr.:`, `Ort:` or `Objekt:` the address stage fails |
| AddressExtraction.MissingStreetLabel | src/main/java/de/alamos/fe2/external/impl/ILSAnsbach.java:117-122 | without `Straße:` the street is read from position 6 on |
| AddressExtraction.PostalCodeIsDigits | src/main/java/de/alamos/fe2/external/impl/ILSAnsbach.java:132 | removing the non-digit runs leaves exactly the digits, in order |
| AddressExtraction.PostalCodeIsCityDigits | src/main/java/de/alamos/fe2/external/impl/ILSAnsbach.java:127-138 | the postal code is exactly the digits of the cut city text, and holds digits only |
| AddressExtraction.RemovedHasNoPostal | src/main/java/de/alamos/fe2/external/impl/ILSAnsbach.java:133 | removing the digit string from the city leaves no occurrence of it |
| AddressExtraction.CityLosesPostalCode | src/main/java/de/alamos/fe2/external/impl/ILSAnsbach.java:131-139 | the city no longer contains the postal code, and without a postal code the city is the trimmed cut city text |
| AddressExtraction.CityValue | src/main/java/de/alamos/fe2/external/impl/ILSAnsbach.java:127-139 | the city is the trimmed cut city text with the first occurrence of the postal code taken out, or the trimmed cut text when the postal code does not occur |
| VehicleExtraction.KnownVehiclesAreListed | src/main/java/de/alamos/fe2/external/impl/ILSAnsbach.java:147-154 | a vehicle is listed exactly when it is on the allow-list and occurs in the section, in allow-list order and each at most once |
| VehicleExtraction.PresentMembers | src/main/java/de/alamos/fe2/external/impl/ILSAnsbach.java:147-153 | a name is in the list exactly when it is an allow-list entry the section contains |
| VehicleExtraction.ListedVehicles | src/main/java/de/alamos/fe2/external/impl/ILSAnsbach.java:147-153 | the three allow-list checks build exactly the vehicles specified by `KnownVehicles` |
| VehicleExtraction.ExtractVehicles | src/main/java/de/alamos/fe2/external/impl/ILSAnsbach.java:142-199 | the method yields exactly the vehicles and roster entries specified by `VehicleFields`, or its failure |
| VehicleExtraction.RosterText | src/main/java/de/alamos/fe2/external/impl/ILSAnsbach.java:163-194 | the loop yields each unit line of `UnitLines` followed by the line separator, or the failure of the first failing fragment |
| VehicleExtraction.VehicleFieldsKeys | src/main/java/de/alamos/fe2/external/impl/ILSAnsbach.java:154-196 | the vehicle stage stores exactly the vehicles and roster entries |
| VehicleExtraction.StripHeading | src/main/java/de/alamos/fe2/external/impl/ILSAnsbach.java:159 | removing the heading leaves a suffix of the section, and leaves the section alone when it does not start with EINSATZMITTEL |
| VehicleExtraction.HeadingRemoval | src/main/java/de/alamos/fe2/external/impl/ILSAnsbach.java:159 | what is removed is EINSATZMITTEL, then the longest run of whitespace, the longest run of dashes and the longest run of whitespace |
| VehicleExtraction.DashTailIsLeftmost | src/main/java/de/alamos/fe2/external/impl/ILSAnsbach.java:160 | `\s*-*\s*$` removes the blank/dash tail that starts leftmost, either at the end of the text or right before a final U+0085, U+2028 or U+2029, which stays |
| VehicleExtraction.FragmentsHaveNoUnitLabel | src/main/java/de/alamos/fe2/external/impl/ILSAnsbach.java:161 | no fragment holds a match of `Einsatzmittel\s*:\s*` |
| VehicleExtraction.StripIndexPrefix | src/main/java/de/alamos/fe2/external/impl/ILSAnsbach.java:172 | the removed prefix is made only of digits, dots and whitespace, and what is left starts with none of them |
| VehicleExtraction.StripKeepsUnitMarker | src/main/java/de/alamos/fe2/external/impl/ILSAnsbach.java:172-175 | stripping the outline number never removes or creates an `Alarmiert` |
| VehicleExtraction.UnitNameHasNoMarker | src/main/java/de/alamos/fe2/external/impl/ILSAnsbach.java:175 | the unit name, cut before the first `Alarmiert`, contains none |
| VehicleExtraction.AfterLastColon | src/main/java/de/alamos/fe2/external/impl/ILSAnsbach.java:176 | the text after the last colon is a suffix holding no colon, preceded by a colon unless it is the whole text |
| VehicleExtraction.EquipmentIsTextAfterLastColon | src/main/java/de/alamos/fe2/external/impl/ILSAnsbach.java:176 | the equipment is the slice of the text after the last colon that trim leaves |
| VehicleExtraction.EquipmentHasNoColon | src/main/java/de/alamos/fe2/external/impl/ILSAnsbach.java:176 | the equipment text, taken after the last colon, holds no colon |
| VehicleExtraction.UnitEntryFails | src/main/java/de/alamos/fe2/external/impl/ILSAnsbach.java:167-175 | a fragment aborts the extraction exactly when it is non-empty and has no `Alarmiert` |
| VehicleExtraction.UnitLinesFail | src/main/java/de/alamos/fe2/external/impl/ILSAnsbach.java:165-175 | the roster fails exactly when some fragment fails, and then with the failure of the first failing fragment |
| VehicleExtraction.VehicleFieldsFail | src/main/java/de/alamos/fe2/external/impl/ILSAnsbach.java:159-175 | the vehicle stage fails exactly when some non-empty fragment of the section has no `Alarmiert` |
| VehicleExtraction.LinesComeFromFragments | src/main/java/de/alamos/fe2/external/impl/ILSAnsbach.java:165-194 | every roster line is the entry of one of the fragments |
| VehicleExtraction.FragmentsGiveLines | src/main/java/de/alamos/fe2/external/impl/ILSAnsbach.java:165-194 | every fragment that gives a line has that line in the roster |
| VehicleExtraction.LinesInFragmentOrder | src/main/java/de/alamos/fe2/external/impl/ILSAnsbach.java:165-194 | the roster has exactly one line per fragment that gives a line, each equal to that fragment's entry, in fragment order |
| VehicleExtraction.RosterLineShape | src/main/java/de/alamos/fe2/external/impl/ILSAnsbach.java:178-191 | info alarms and the NEA unit get no line; otherwise the line is the unit, plus ` (equipment)` exactly when the equipment is longer than 3 UTF-16 code units and not a KB code |
| VehicleExtraction.KbEquipmentIsHidden | src/main/java/de/alamos/fe2/external/impl/ILSAnsbach.java:184-186 | a `Sonderausrüstung KB\w` equipment never reaches the roster line |
| VehicleExtraction.RosterLineIsTrimmed | src/main/java/de/alamos/fe2/external/impl/ILSAnsbach.java:175-190 | a named unit gives a non-empty line with no blank at either end |
| VehicleExtraction.TerminatedIsJoin | src/main/java/de/alamos/fe2/external/impl/ILSAnsbach.java:193 | terminating every line is joining the lines and terminating the last one |
| VehicleExtraction.RosterIsJoinedLines | src/main/java/de/alamos/fe2/external/impl/ILSAnsbach.java:193-196 | when every line is non-empty and trimmed, the trimmed roster is the lines joined by the line separator |
| Extractor.Diagnostic | src/main/java/de/alamos/fe2/external/impl/ILSAnsbach.java:52-57 | every failure is logged with a non-empty description |
| Extractor.Extract | src/main/java/de/alamos/fe2/external/impl/ILSAnsbach.java:27-60 | the method builds exactly the map specified by `Extraction` |
| Extractor.RejectedInputIsLoggedAlone | src/main/java/de/alamos/fe2/external/impl/ILSAnsbach.java:29-58 | a null input, or a text without `ILS Ansbach`, gives the log entry alone, with the matching exception |
| Extractor.EmptyAndNullGiveOneEntry | src/test/java/de/alamos/fe2/external/impl/test/ILSAnsbachTest.java:13-27 | the empty text and the null reference each give a map of one entry |
| Extractor.SuccessHasTenEntries | src/main/java/de/alamos/fe2/external/impl/ILSAnsbach.java:41-50 | a fax on which no stage fails gives exactly the 4 section, 4 address and 2 vehicle entries, and no log entry |
| Extractor.LogMeansFailure | src/main/java/de/alamos/fe2/external/impl/ILSAnsbach.java:29-58 | the log entry is present exactly when some stage fails |
| Extractor.FailureKeys | src/main/java/de/alamos/fe2/external/impl/ILSAnsbach.java:41-57 | a failing stage leaves the log entry next to exactly the entries of the stages before it: none, the 4 sections, or the sections and the 4 address entries |
| Extractor.EarlierEntriesSurvive | src/main/java/de/alamos/fe2/external/impl/ILSAnsbach.java:41-57 | once the fax is divided its section entries stay in the result, and once the address is found its entries stay too, whatever fails later |
| Extractor.MergeKeeps | src/main/java/de/alamos/fe2/external/impl/ILSAnsbach.java:50-57 | the vehicle stage, or its failure, keeps every stored entry other than its own two and the log |
| Extractor.ExtractedValuesAreClean | src/main/java/de/alamos/fe2/external/impl/ILSAnsbach.java:105-138 | on a fully extracted fax the postal code is digits only and the remarks are trimmed and dash-free |
| Keys.NamesDistinct | src/main/java/de/alamos/fe2/external/impl/Parameter.java:12-26 | no two entries share a key string |

## Left out

- Stack traces: the log value is the exception's class name and message as
  `Throwable.toString()` gives them. The stack frames that `printStackTrace`
  adds after that line are JVM-specific.
- Extractor.Diagnostic: the substring failure is logged by its class name
  alone. The JVM's wording of the bounds message is not modelled.
- Key names from the host library: the key strings of street, house number,
  postal code and city come from the host application's `EAlarmDataEntries`
  enum. That enum is not part of this model, so they are placeholders. Only
  their distinctness matters.
- Constant names that do not match: the extractor and its test use
  `EINSATZGRUNG`, `POSTALCODE` and `VEHICLES_ALARMTEXT`, but the parameter
  enum declares `EINSATZGRUND`, `POSTCODE` and `EINSATZMITTEL_LISTE`. The
  model uses the entries those names evidently denote, with the enum's key
  strings. The unused `EINSATZMITTEL_HTML` key is not modelled.
- `System.lineSeparator()` is fixed to a line feed, as the test expects.
- General regular expressions: only the patterns the extractor uses are
  modelled.
  - `(?i)` folds ASCII letters only, which is enough for the ASCII patterns
    it guards.
  - `\s` is Java's six whitespace characters.
  - `trim()` removes every character up to U+0020.
  - Characters are Unicode scalar values as Dafny `char`s. `length()` is
    modelled as a count of UTF-16 code units (`JavaText.Utf16Length`). A Java
    string holding a lone surrogate cannot be represented. There is no
    Unicode normalisation.
- Postal code used as a regex: `city.replaceAll(postal, "")` is modelled as
  removing a literal. This is exact because the postal code is digits only or
  empty. The empty pattern leaves the text unchanged.
- The test's expected roster starts with `FL BAUD 42/1`. Its input document
  is not part of this model, and the code does no sorting, so the model keeps
  the roster in document order.
- The plugin interface `IAlarmExtractor`, the `HashMap` class and its
  iteration order: the result is a Dafny `map`.
- The test class itself is used only as evidence for properties.
  The full example document (`example01.txt`) is not part of this model.
