/** Cutting the normalised fax into its four sections by the first
    occurrences of the section headings (divideByKeywords). */
module Segmenter {
  import opened JavaText
  import opened Patterns

  datatype Sections = Sections(location: String, reason: String, resources: String, remarks: String)

  /** Where the location section ends: at ZIELORT, or at EINSATZGRUND when
      the fax has no ZIELORT heading. */
  function LocationEnd(text: String): (r: int)
    ensures Contains(text, "ZIELORT") ==> r == IndexOf(text, "ZIELORT")
    ensures !Contains(text, "ZIELORT") ==> r == IndexOf(text, "EINSATZGRUND")
  {
    var idxZielOrt := IndexOf(text, "ZIELORT");
    if idxZielOrt == -1 then IndexOf(text, "EINSATZGRUND") else idxZielOrt
  }

  /** The remarks text after its 9-character heading: dash runs become one
      space and the result is trimmed. */
  function CleanRemarks(tail: String): String
  {
    Trim(ReplaceAll(tail, Run(Dash), " "))
  }

  function DivideByKeywords(text: String): (r: Result<Sections>)
    ensures r.Ok? <==> HeadingsInOrder(text)
    ensures r.Ok? ==> IndexOf(text, "BEMERKUNG") + 9 <= IndexOf(text, "ENDE FAX")
  {
    var idxEinsatzOrt := IndexOf(text, "EINSATZORT");
    var idxEinsatzGrund := IndexOf(text, "EINSATZGRUND");
    var idxEinsatzMittel := IndexOf(text, "EINSATZMITTEL");
    var idxBemerkung := IndexOf(text, "BEMERKUNG");
    var idxEndeFax := IndexOf(text, "ENDE FAX");
    var location :- Substring(text, idxEinsatzOrt, LocationEnd(text));
    var reason :- Substring(text, idxEinsatzGrund, idxEinsatzMittel);
    var resources :- Substring(text, idxEinsatzMittel, idxBemerkung);
    var remarks :- Substring(text, idxBemerkung, idxEndeFax);
    // substring(9) cannot fail: the remarks start with their whole heading
    RemarksHeadingFits(text);
    Ok(Sections(location, reason, resources, CleanRemarks(remarks[9..])))
  }

  /** The headings the sections are cut at are all present and their first
      occurrences come in the order the cuts need. The location section may
      overlap the others: nothing compares ZIELORT with the later headings. */
  predicate HeadingsInOrder(text: String) {
    && Contains(text, "EINSATZORT") && Contains(text, "EINSATZGRUND") && Contains(text, "EINSATZMITTEL")
    && Contains(text, "BEMERKUNG") && Contains(text, "ENDE FAX")
    && IndexOf(text, "EINSATZORT") <= LocationEnd(text)
    && IndexOf(text, "EINSATZGRUND") <= IndexOf(text, "EINSATZMITTEL") <= IndexOf(text, "BEMERKUNG")
    && IndexOf(text, "BEMERKUNG") <= IndexOf(text, "ENDE FAX")
  }

  // ---------------------------------------------------------------------
  // Headings cannot overlap

  lemma {:induction false} AgreeFromOccurrences(s: String, a: String, b: String, i: nat, j: nat, k: nat)
    requires OccursAt(s, a, i) && OccursAt(s, b, j) && i <= j
    ensures AgreeAt(a, b, j - i, k, false)
    decreases |b| - k
  {
    if k < |b| && j - i + k < |a| {
      assert a[j - i + k] == s[i..i + |a|][j - i + k] == s[j + k];
      assert b[k] == s[j..j + |b|][k] == s[j + k];
      AgreeFromOccurrences(s, a, b, i, j, k + 1);
    }
  }

  /** Occurrences of two headings that cannot overlap are at least the first
      heading's length apart. */
  lemma OccurrencesApart(s: String, a: String, b: String, i: nat, j: nat)
    requires CannotStartInside(a, b, 0, false) && OccursAt(s, a, i) && OccursAt(s, b, j) && i <= j
    ensures i + |a| <= j
  {
    if j < i + |a| {
      AgreeFromOccurrences(s, a, b, i, j, 0);
      NotInside(a, b, 0, j - i, false);
    }
  }

  /** BEMERKUNG and ENDE FAX cannot overlap, so the remarks section always
      holds its whole 9-character heading. */
  lemma RemarksHeadingFits(text: String)
    requires 0 <= IndexOf(text, "BEMERKUNG") <= IndexOf(text, "ENDE FAX")
    ensures IndexOf(text, "BEMERKUNG") + 9 <= IndexOf(text, "ENDE FAX")
  {
    LaterHeadingsCannotOverlap();
    OccurrencesApart(text, "BEMERKUNG", "ENDE FAX", IndexOf(text, "BEMERKUNG"), IndexOf(text, "ENDE FAX"));
  }

  lemma LocationHeadingsCannotOverlap()
    ensures CannotStartInside("EINSATZORT", "ZIELORT", 0, false)
    ensures CannotStartInside("EINSATZORT", "EINSATZGRUND", 0, false)
  {
  }

  lemma LaterHeadingsCannotOverlap()
    ensures CannotStartInside("EINSATZGRUND", "EINSATZMITTEL", 0, false)
    ensures CannotStartInside("EINSATZMITTEL", "BEMERKUNG", 0, false)
    ensures CannotStartInside("BEMERKUNG", "ENDE FAX", 0, false)
  {
  }

  // ---------------------------------------------------------------------
  // Properties of the cut

  predicate StartsWith(s: String, prefix: String) {
    |prefix| <= |s| && s[..|prefix|] == prefix
  }

  /** `section` is the text from the first occurrence of `heading` up to
      `end`, and it starts with the heading itself. */
  predicate CutAt(text: String, section: String, heading: String, end: int) {
    && 0 <= IndexOf(text, heading) <= end <= |text|
    && section == text[IndexOf(text, heading)..end]
    && StartsWith(section, heading)
  }

  lemma CutStartsWithHeading(text: String, heading: String, next: String, end: int)
    requires CannotStartInside(heading, next, 0, false)
    requires 0 <= IndexOf(text, heading) <= end && OccursAt(text, next, end)
    ensures CutAt(text, text[IndexOf(text, heading)..end], heading, end)
  {
    var i := IndexOf(text, heading);
    OccurrencesApart(text, heading, next, i, end);
    assert text[i..end][..|heading|] == text[i..i + |heading|];
  }

  /** The four sections as cuts of the text. */
  lemma DividedSections(text: String)
    requires DivideByKeywords(text).Ok?
    ensures HeadingsInOrder(text)
    ensures DivideByKeywords(text).value == Sections(
      text[IndexOf(text, "EINSATZORT")..LocationEnd(text)],
      text[IndexOf(text, "EINSATZGRUND")..IndexOf(text, "EINSATZMITTEL")],
      text[IndexOf(text, "EINSATZMITTEL")..IndexOf(text, "BEMERKUNG")],
      CleanRemarks(text[IndexOf(text, "BEMERKUNG") + 9..IndexOf(text, "ENDE FAX")]))
  {
    var b := IndexOf(text, "BEMERKUNG");
    var e := IndexOf(text, "ENDE FAX");
    RemarksHeadingFits(text);
    assert text[b..e][9..] == text[b + 9..e];
  }

  /** Each section starts with its own heading and ends right before the
      first occurrence of the next one; the location section ends at ZIELORT,
      or at EINSATZGRUND when there is no ZIELORT. */
  lemma SectionsFollowHeadings(text: String)
    requires DivideByKeywords(text).Ok?
    ensures CutAt(text, DivideByKeywords(text).value.location, "EINSATZORT", LocationEnd(text))
    ensures CutAt(text, DivideByKeywords(text).value.reason, "EINSATZGRUND", IndexOf(text, "EINSATZMITTEL"))
    ensures CutAt(text, DivideByKeywords(text).value.resources, "EINSATZMITTEL", IndexOf(text, "BEMERKUNG"))
  {
    DividedSections(text);
    LocationHeadingsCannotOverlap();
    LaterHeadingsCannotOverlap();
    var z := LocationEnd(text);
    if Contains(text, "ZIELORT") {
      CutStartsWithHeading(text, "EINSATZORT", "ZIELORT", z);
    } else {
      CutStartsWithHeading(text, "EINSATZORT", "EINSATZGRUND", z);
    }
    CutStartsWithHeading(text, "EINSATZGRUND", "EINSATZMITTEL", IndexOf(text, "EINSATZMITTEL"));
    CutStartsWithHeading(text, "EINSATZMITTEL", "BEMERKUNG", IndexOf(text, "BEMERKUNG"));
  }

  predicate IsDash(c: char) { c == '-' }

  /** The remarks drop the 9-character BEMERKUNG heading, hold no dash and
      are trimmed. */
  lemma RemarksAreClean(text: String)
    requires DivideByKeywords(text).Ok?
    ensures DivideByKeywords(text).value.remarks ==
              CleanRemarks(text[IndexOf(text, "BEMERKUNG") + 9..IndexOf(text, "ENDE FAX")])
    ensures IsTrimmed(DivideByKeywords(text).value.remarks)
    ensures NoneBad(DivideByKeywords(text).value.remarks, IsDash)
  {
    DividedSections(text);
    RemarksHaveNoDash(text[IndexOf(text, "BEMERKUNG") + 9..IndexOf(text, "ENDE FAX")]);
  }

  lemma RemarksHaveNoDash(tail: String)
    ensures NoneBad(CleanRemarks(tail), IsDash)
  {
    DashRunsStartMatches();
    ReplaceAllEliminates(tail, Run(Dash), " ", IsDash);
    TrimKeepsNoneBad(ReplaceAll(tail, Run(Dash), " "), IsDash);
  }

  lemma DashRunsStartMatches()
    ensures forall t: String :: t != [] && IsDash(t[0]) ==> MatchLength(Run(Dash), t) > 0
  {
  }

  /** Remarks without dashes are only trimmed. */
  lemma RemarksWithoutDashAreTrimmed(tail: String)
    requires forall i :: 0 <= i < |tail| ==> tail[i] != '-'
    ensures CleanRemarks(tail) == Trim(tail)
  {
    forall j | 0 <= j < |tail| ensures MatchLength(Run(Dash), tail[j..]) == 0 {
      assert tail[j..][0] == tail[j];
    }
    NoMatchIsIdentity(tail, Run(Dash), " ");
  }
}
