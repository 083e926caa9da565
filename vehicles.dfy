/** The resources section turned into the two vehicle fields
    (extractVehicles): the allow-listed vehicles the section names, and one
    roster line per alarmed unit. */
module VehicleExtraction {
  import opened JavaText
  import opened Patterns
  import Keys

  /** System.lineSeparator(), fixed to a line feed. */
  const LineSeparator: String := "\n"

  /** The vehicles the alarm servers recognise, in the order they are listed. */
  const AllowList: seq<String> := ["FL BAUD 11/1", "FL BAUD 42/1", "FL BAUD 49/1"]

  const KbEquipment: String := "Sonderausrüstung KB"

  // ---------------------------------------------------------------------
  // Allow-listed vehicles

  /** The entries of `list` that occur in `section`, in list order. */
  function Present(list: seq<String>, section: String): (r: seq<String>)
    ensures |r| <= |list|
  {
    if list == [] then []
    else (if Contains(section, list[0]) then [list[0]] else []) + Present(list[1..], section)
  }

  function KnownVehicles(section: String): seq<String>
  {
    Present(AllowList, section)
  }

  predicate NoDuplicates(s: seq<String>) {
    forall i, j :: 0 <= i < j < |s| ==> s[i] != s[j]
  }

  /** `sub` is `s` with some entries left out, order kept. */
  predicate IsSubsequence(sub: seq<String>, s: seq<String>)
    decreases |s|
  {
    if sub == [] then true
    else if s == [] then false
    else if sub[0] == s[0] then IsSubsequence(sub[1..], s[1..])
    else IsSubsequence(sub, s[1..])
  }

  /** A name is listed exactly when it is on the list and occurs in the section. */
  lemma {:induction false} PresentMembers(list: seq<String>, section: String, x: String)
    ensures x in Present(list, section) <==> x in list && Contains(section, x)
    decreases |list|
  {
    if list != [] {
      PresentMembers(list[1..], section, x);
      assert x in list <==> x == list[0] || x in list[1..];
    }
  }

  /** The listed names keep the list's order. */
  lemma {:induction false} PresentInOrder(list: seq<String>, section: String)
    ensures IsSubsequence(Present(list, section), list)
    decreases |list|
  {
    if list != [] {
      PresentInOrder(list[1..], section);
      var rest := Present(list[1..], section);
      if Contains(section, list[0]) {
        var r := [list[0]] + rest;
        assert Present(list, section) == r;
        assert r[1..] == rest && r[0] == list[0];
        assert IsSubsequence(r, list) == IsSubsequence(rest, list[1..]);
      } else {
        assert Present(list, section) == rest;
        SubsequenceDropHead(rest, list);
      }
    }
  }

  lemma {:induction false} SubsequenceDropHead(sub: seq<String>, s: seq<String>)
    requires s != [] && IsSubsequence(sub, s[1..])
    ensures IsSubsequence(sub, s)
    decreases |s|, 0
  {
    if sub != [] && sub[0] == s[0] {
      SubsequenceOfTail(sub, s[1..]);
    }
  }

  lemma {:induction false} SubsequenceOfTail(sub: seq<String>, s: seq<String>)
    requires sub != [] && IsSubsequence(sub, s)
    ensures IsSubsequence(sub[1..], s)
    decreases |s|, 1
  {
    if s != [] {
      if sub[0] == s[0] {
        SubsequenceDropHead(sub[1..], s);
      } else {
        SubsequenceOfTail(sub, s[1..]);
        SubsequenceDropHead(sub[1..], s);
      }
    }
  }

  /** A list without repeated names yields no repeated names. */
  lemma {:induction false} PresentNoDuplicates(list: seq<String>, section: String)
    requires NoDuplicates(list)
    ensures NoDuplicates(Present(list, section))
    decreases |list|
  {
    if list != [] {
      var rest := Present(list[1..], section);
      assert NoDuplicates(list[1..]) by {
        forall i, j | 0 <= i < j < |list[1..]| ensures list[1..][i] != list[1..][j] {
          assert list[1..][i] == list[i + 1] && list[1..][j] == list[j + 1];
        }
      }
      PresentNoDuplicates(list[1..], section);
      if Contains(section, list[0]) {
        PresentMembers(list[1..], section, list[0]);
        var r := [list[0]] + rest;
        forall i, j | 0 <= i < j < |r| ensures r[i] != r[j] {
          if i == 0 {
            assert r[j] == rest[j - 1] && r[j] in rest;
          } else {
            assert r[i] == rest[i - 1] && r[j] == rest[j - 1];
          }
        }
      }
    }
  }

  lemma KnownVehiclesUnfold(section: String)
    ensures KnownVehicles(section) ==
      (if Contains(section, "FL BAUD 11/1") then ["FL BAUD 11/1"] else [])
      + (if Contains(section, "FL BAUD 42/1") then ["FL BAUD 42/1"] else [])
      + (if Contains(section, "FL BAUD 49/1") then ["FL BAUD 49/1"] else [])
  {
    var l1 := ["FL BAUD 42/1", "FL BAUD 49/1"];
    var l2 := ["FL BAUD 49/1"];
    assert AllowList[1..] == l1 && l1[1..] == l2 && l2[1..] == [];
    assert Present(l2, section) == (if Contains(section, "FL BAUD 49/1") then ["FL BAUD 49/1"] else []);
    assert Present(l1, section) == (if Contains(section, "FL BAUD 42/1") then ["FL BAUD 42/1"] else []) + Present(l2, section);
    assert Present(AllowList, section) == (if Contains(section, "FL BAUD 11/1") then ["FL BAUD 11/1"] else []) + Present(l1, section);
  }

  /** The vehicles field names exactly the allow-listed vehicles the section
      mentions, in allow-list order and each once. */
  lemma KnownVehiclesAreListed(section: String)
    ensures forall x :: x in KnownVehicles(section) <==> x in AllowList && Contains(section, x)
    ensures IsSubsequence(KnownVehicles(section), AllowList)
    ensures NoDuplicates(KnownVehicles(section))
  {
    forall x ensures x in KnownVehicles(section) <==> x in AllowList && Contains(section, x) {
      PresentMembers(AllowList, section, x);
    }
    PresentInOrder(AllowList, section);
    PresentNoDuplicates(AllowList, section);
  }

  // ---------------------------------------------------------------------
  // Cleaning and splitting the section

  /** `^EINSATZMITTEL\s*-*\s*`: the heading with the blanks and dashes after it. */
  function StripHeading(section: String): (r: String)
    ensures |r| <= |section| && r == section[|section| - |r|..]
    ensures !StartsWithHeading(section) ==> r == section
  {
    if StartsWithHeading(section) then
      var a := SkipRun(section, 13, Space);
      var b := SkipRun(section, a, Dash);
      section[SkipRun(section, b, Space)..]
    else section
  }

  /** The position just after the longest run of class `k` starting at `from`. */
  function SkipRun(x: String, from: nat, k: CharClass): (e: nat)
    requires from <= |x|
    ensures from <= e <= |x|
  {
    from + RunLength(x[from..], k)
  }

  predicate StartsWithHeading(section: String) {
    13 <= |section| && section[..13] == "EINSATZMITTEL"
  }

  /** What StripHeading removes from a section that starts with the heading:
      the heading, then the longest run of blanks, the longest run of dashes
      after it and the longest run of blanks after those. */
  lemma HeadingRemoval(section: String) returns (a: nat, b: nat, c: nat)
    requires StartsWithHeading(section)
    ensures 13 <= a <= b <= c <= |section| && StripHeading(section) == section[c..]
    ensures forall i :: 13 <= i < a ==> IsRegexSpace(section[i])
    ensures forall i :: a <= i < b ==> section[i] == '-'
    ensures forall i :: b <= i < c ==> IsRegexSpace(section[i])
    ensures a < |section| ==> !IsRegexSpace(section[a])
    ensures b < |section| ==> section[b] != '-'
    ensures c < |section| ==> !IsRegexSpace(section[c])
  {
    a := RunAt(section, 13, Space);
    b := RunAt(section, a, Dash);
    c := RunAt(section, b, Space);
  }

  /** The run of class `k` that starts at `from`, in positions of the whole text. */
  lemma RunAt(x: String, from: nat, k: CharClass) returns (e: nat)
    requires from <= |x|
    ensures e == SkipRun(x, from, k)
    ensures forall i :: from <= i < e ==> InClass(x[i], k)
    ensures e < |x| ==> !InClass(x[e], k)
  {
    e := SkipRun(x, from, k);
    forall i | from <= i < e ensures InClass(x[i], k) {
      assert x[i] == x[from..][i - from];
    }
    if e < |x| {
      assert x[e] == x[from..][e - from];
    }
  }

  /** Text made of blanks, then dashes, then blanks: what `\s*-*\s*` matches. */
  predicate IsDashTail(t: String) {
    var a := RunLength(t, Space);
    var b := RunLength(t[a..], Dash);
    a + b + RunLength(t[a + b..], Space) == |t|
  }

  /** The line terminators Java knows that `\s` does not cover. */
  predicate IsOtherTerminator(c: char) {
    c == '\U{85}' || c == '\U{2028}' || c == '\U{2029}'
  }

  /** `\s*-*\s*$` matches at the start of `t`: `$` holds at the end of the
      input and also before a final line terminator; `\n` and `\r` are
      blanks already, so only the other terminators add a case. */
  predicate MatchesToEnd(t: String) {
    || IsDashTail(t)
    || (t != [] && IsOtherTerminator(t[|t| - 1]) && IsDashTail(t[..|t| - 1]))
  }

  /** The first position from `i` on where the tail pattern matches. */
  function TailStart(s: String, i: nat): (r: nat)
    requires i <= |s|
    decreases |s| - i
    ensures i <= r <= |s|
  {
    if i == |s| || MatchesToEnd(s[i..]) then i
    else TailStart(s, i + 1)
  }

  lemma EmptyIsDashTail(s: String)
    requires s == []
    ensures IsDashTail(s)
  {
    assert RunLength(s, Space) == 0;
  }

  lemma {:induction false} TailStartMatches(s: String, i: nat)
    requires i <= |s|
    ensures MatchesToEnd(s[TailStart(s, i)..])
    decreases |s| - i
  {
    if i == |s| {
      EmptyIsDashTail(s[i..]);
    } else if !MatchesToEnd(s[i..]) {
      TailStartMatches(s, i + 1);
    }
  }

  lemma {:induction false} TailStartIsFirst(s: String, i: nat)
    requires i <= |s|
    ensures forall j :: i <= j < TailStart(s, i) ==> !MatchesToEnd(s[j..])
    decreases |s| - i
  {
    if i < |s| && !MatchesToEnd(s[i..]) {
      TailStartIsFirst(s, i + 1);
    }
  }

  /** `\s*-*\s*$` replaced by nothing: the leftmost match is removed, and a
      final terminator the match stopped in front of stays. */
  function DropDashTail(s: String): (r: String)
    ensures |r| <= |s|
    ensures r == s[..|r|] || (s != [] && IsOtherTerminator(s[|s| - 1]) && r == s[..|r| - 1] + [s[|s| - 1]])
  {
    var i := TailStart(s, 0);
    TailStartMatches(s, 0);
    if IsDashTail(s[i..]) then s[..i] else s[..i] + [s[|s| - 1]]
  }

  /** DropDashTail removes the leftmost match of the tail pattern: from the
      returned position `i` on, the text is a dash tail, possibly followed by
      a final terminator that is kept, and no earlier position matches. */
  lemma DashTailIsLeftmost(s: String) returns (i: nat)
    ensures i <= |s|
    ensures IsDashTail(s[i..]) ==> DropDashTail(s) == s[..i]
    ensures !IsDashTail(s[i..]) ==>
              && i < |s| && IsOtherTerminator(s[|s| - 1]) && IsDashTail(s[i..|s| - 1])
              && DropDashTail(s) == s[..i] + [s[|s| - 1]]
    ensures forall j :: 0 <= j < i ==> !MatchesToEnd(s[j..])
  {
    i := TailStart(s, 0);
    TailStartMatches(s, 0);
    TailStartIsFirst(s, 0);
    var t := s[i..];
    if !IsDashTail(t) {
      assert t != [] && IsOtherTerminator(t[|t| - 1]) && IsDashTail(t[..|t| - 1]);
      assert t[|t| - 1] == s[|s| - 1];
      DropLastOfSuffix(s, i);
    }
  }

  lemma DropLastOfSuffix(s: String, i: nat)
    requires i < |s|
    ensures s[i..][..|s| - i - 1] == s[i..|s| - 1]
  {
  }

  /** The per-unit fragments: the cleaned section split at `Einsatzmittel\s*:\s*`. */
  function Fragments(section: String): seq<String>
  {
    Split(DropDashTail(StripHeading(section)), Label("Einsatzmittel"))
  }

  // ---------------------------------------------------------------------
  // One roster line per unit

  /** `^[\d\.\s]*`: the outline number in front of the unit. */
  function StripIndexPrefix(fragment: String): (r: String)
    ensures |r| <= |fragment| && r == fragment[|fragment| - |r|..]
    ensures r == [] || !InClass(r[0], IndexPrefix)
    ensures forall i :: 0 <= i < |fragment| - |r| ==> InClass(fragment[i], IndexPrefix)
  {
    fragment[RunLength(fragment, IndexPrefix)..]
  }

  /** The text after the last colon, the whole text when there is none. */
  function AfterLastColon(e: String): (r: String)
    ensures |r| <= |e| && r == e[|e| - |r|..]
    ensures forall k :: 0 <= k < |r| ==> r[k] != ':'
    ensures |r| < |e| ==> e[|e| - |r| - 1] == ':'
  {
    var c := LastIndexOf(e, ':') + 1;
    assert forall k :: 0 <= k < |e| - c ==> e[c..][k] == e[c + k];
    e[c..]
  }

  /** The equipment requested of a unit: the trimmed text after the last colon. */
  function Equipment(e: String): (r: String)
    ensures IsTrimmed(r)
  {
    Trim(AfterLastColon(e))
  }

  /** `Sonderausrüstung KB\w`, matched against the whole text. */
  predicate IsKbEquipment(equipment: String) {
    && |equipment| == |KbEquipment| + 1
    && equipment[..|KbEquipment|] == KbEquipment
    && IsWordChar(equipment[|KbEquipment|])
  }

  /** The roster line of one fragment, None when it is skipped; Err when a
      non-empty fragment has no `Alarmiert` (substring(0, -1) throws). */
  function UnitEntry(fragment: String): Result<Option<String>>
  {
    if fragment == [] then Ok(None)
    else
      var e := StripIndexPrefix(fragment);
      var head :- Substring(e, 0, IndexOf(e, "Alarmiert"));
      Ok(RosterLine(Trim(head), Equipment(e)))
  }

  /** Info alarms and the NEA unit get no line; otherwise the unit, followed
      by its equipment in parentheses when that is longer than three
      UTF-16 code units and not a KB equipment code. */
  function RosterLine(unit: String, equipment: String): Option<String>
  {
    if Contains(unit, "Infoalarm") || unit == "NEA FF Baudenbach" then None
    else
      var equipment := if IsKbEquipment(equipment) then [] else equipment;
      Some(if Utf16Length(equipment) > 3 then unit + " (" + equipment + ")" else unit)
  }

  lemma UnitEntryOfParts(fragment: String)
    requires fragment != []
    ensures var e := StripIndexPrefix(fragment);
            var head := Substring(e, 0, IndexOf(e, "Alarmiert"));
            UnitEntry(fragment) == if head.Err? then Err(head.failure) else Ok(RosterLine(Trim(head.value), Equipment(e)))
  {
  }

  /** The roster lines of the fragments, in fragment order; the first
      failing fragment decides the failure. */
  function UnitLines(fragments: seq<String>): Result<seq<String>>
  {
    if fragments == [] then Ok([])
    else
      var lines :- UnitLines(fragments[..|fragments| - 1]);
      var entry :- UnitEntry(fragments[|fragments| - 1]);
      Ok(if entry.Some? then lines + [entry.value] else lines)
  }

  /** Each line followed by the line separator. */
  function Terminated(lines: seq<String>): String
  {
    if lines == [] then []
    else Terminated(lines[..|lines| - 1]) + lines[|lines| - 1] + LineSeparator
  }

  /** The vehicles field and the roster field, or the failure. */
  function VehicleFields(section: String): Result<map<Keys.Key, String>>
  {
    var lines :- UnitLines(Fragments(section));
    Ok(map[Keys.Vehicles := Join(KnownVehicles(section), LineSeparator),
           Keys.Roster := Trim(Terminated(lines))])
  }

  /** The vehicle stage adds exactly the vehicles and the roster entry. */
  lemma VehicleFieldsKeys(section: String)
    requires VehicleFields(section).Ok?
    ensures VehicleFields(section).value.Keys == {Keys.Vehicles, Keys.Roster}
  {
  }

  /** extractVehicles: the vehicles field from the allow-list, then the
      roster from the unit fragments. */
  method ExtractVehicles(section: String) returns (r: Result<map<Keys.Key, String>>)
    ensures r == VehicleFields(section)
  {
    var resultMap: map<Keys.Key, String> := map[];
    var vehicles := ListedVehicles(section);
    resultMap := resultMap[Keys.Vehicles := Join(vehicles, LineSeparator)];

    // heading and dash tail stripped, then split at each unit label
    var fragments := Fragments(section);
    var alarmText :- RosterText(fragments);
    resultMap := resultMap[Keys.Roster := Trim(alarmText)];
    return Ok(resultMap);
  }

  /** The three allow-list checks, in allow-list order. */
  method ListedVehicles(section: String) returns (vehicles: seq<String>)
    ensures vehicles == KnownVehicles(section)
  {
    vehicles := [];
    if Contains(section, "FL BAUD 11/1") {
      vehicles := vehicles + ["FL BAUD 11/1"];
    }
    if Contains(section, "FL BAUD 42/1") {
      vehicles := vehicles + ["FL BAUD 42/1"];
    }
    if Contains(section, "FL BAUD 49/1") {
      vehicles := vehicles + ["FL BAUD 49/1"];
    }
    KnownVehiclesUnfold(section);
  }

  /** The loop over the unit fragments: one line per alarmed unit, each
      followed by the line separator; the first fragment without
      `Alarmiert` aborts with the substring failure. */
  method RosterText(fragments: seq<String>) returns (r: Result<String>)
    ensures UnitLines(fragments).Err? ==> r == Err(UnitLines(fragments).failure)
    ensures UnitLines(fragments).Ok? ==> r == Ok(Terminated(UnitLines(fragments).value))
  {
    var alarmText: String := [];
    ghost var lines: seq<String> := [];
    for i := 0 to |fragments|
      invariant UnitLines(fragments[..i]) == Ok(lines)
      invariant alarmText == Terminated(lines)
    {
      UnitLinesStep(fragments, i, lines);
      var e := fragments[i];
      if |e| == 0 {
        continue;
      }
      e := StripIndexPrefix(e);
      var head := Substring(e, 0, IndexOf(e, "Alarmiert"));
      if head.Err? {
        UnitLinesKeepFailure(fragments, i + 1);
        return Err(head.failure);
      }
      var unit := Trim(head.value);
      var equipment := Trim(e[LastIndexOf(e, ':') + 1..]);
      ghost var line := RosterLine(unit, equipment);
      UnitEntryOfParts(fragments[i]);
      if Contains(unit, "Infoalarm") || unit == "NEA FF Baudenbach" {
        continue;
      }
      if IsKbEquipment(equipment) {
        equipment := [];
      }
      if Utf16Length(equipment) > 3 {
        unit := unit + " (" + equipment + ")";
      }
      assert line == Some(unit);
      alarmText := alarmText + unit + LineSeparator;
      assert (lines + [unit])[..|lines|] == lines;
      lines := lines + [unit];
    }
    assert fragments[..|fragments|] == fragments;
    return Ok(alarmText);
  }

  /** UnitLines over one more fragment. */
  lemma UnitLinesStep(fragments: seq<String>, i: nat, lines: seq<String>)
    requires i < |fragments| && UnitLines(fragments[..i]) == Ok(lines)
    ensures UnitEntry(fragments[i]).Err? ==> UnitLines(fragments[..i + 1]) == Err(UnitEntry(fragments[i]).failure)
    ensures UnitEntry(fragments[i]) == Ok(None) ==> UnitLines(fragments[..i + 1]) == Ok(lines)
    ensures UnitEntry(fragments[i]).Ok? && UnitEntry(fragments[i]).value.Some? ==>
              UnitLines(fragments[..i + 1]) == Ok(lines + [UnitEntry(fragments[i]).value.value])
  {
    assert fragments[..i + 1][..i] == fragments[..i];
  }

  /** Once a prefix of the fragments fails, the whole list fails the same way. */
  lemma {:induction false} UnitLinesKeepFailure(fragments: seq<String>, n: nat)
    requires n <= |fragments| && UnitLines(fragments[..n]).Err?
    ensures UnitLines(fragments) == UnitLines(fragments[..n])
    decreases |fragments| - n
  {
    if n < |fragments| {
      assert fragments[..n + 1][..n] == fragments[..n];
      UnitLinesKeepFailure(fragments, n + 1);
    } else {
      assert fragments[..n] == fragments;
    }
  }

  // ---------------------------------------------------------------------
  // Properties of the roster

  /** No fragment holds the unit label the section was split at. */
  lemma FragmentsHaveNoUnitLabel(section: String)
    ensures forall f, k :: f in Fragments(section) && 0 <= k < |f| ==>
              MatchLength(Label("Einsatzmittel"), f[k..]) == 0
  {
    SplitHasNoDelimiter(DropDashTail(StripHeading(section)), Label("Einsatzmittel"));
  }

  lemma SplitHasNoDelimiter(s: String, p: Pattern)
    ensures forall f, k :: f in Split(s, p) && 0 <= k < |f| ==> MatchLength(p, f[k..]) == 0
  {
    var pieces := SplitFrom(s, p, []);
    SplitPiecesHaveNoDelimiter(s, p, []);
    if |pieces| != 1 {
      var r := DropTrailingEmpty(pieces);
      forall f | f in r ensures f in pieces {
        var j :| 0 <= j < |r| && r[j] == f;
        assert pieces[j] == f;
      }
    }
  }

  const UnitMarker: String := "Alarmiert"

  /** Stripping the outline number never removes the `Alarmiert` marker: the
      marker starts with a letter, which the number prefix cannot hold. */
  lemma StripKeepsUnitMarker(fragment: String)
    ensures Contains(StripIndexPrefix(fragment), UnitMarker) <==> Contains(fragment, UnitMarker)
  {
    StripKeepsText(fragment, UnitMarker);
  }

  lemma StripKeepsText(fragment: String, pat: String)
    requires pat != [] && !InClass(pat[0], IndexPrefix)
    ensures Contains(StripIndexPrefix(fragment), pat) <==> Contains(fragment, pat)
  {
    var n := RunLength(fragment, IndexPrefix);
    var e := fragment[n..];
    if Contains(e, pat) {
      assert fragment[n..|fragment|] == e;
      SliceOccurrence(fragment, n, |fragment|, pat, IndexOf(e, pat));
    }
    if Contains(fragment, pat) {
      var k := IndexOf(fragment, pat);
      SuffixKeepsOccurrence(fragment, pat, k, n);
    }
  }

  /** An occurrence that starts outside the prefix run survives the cut. */
  lemma SuffixKeepsOccurrence(fragment: String, pat: String, k: nat, n: nat)
    requires pat != [] && !InClass(pat[0], IndexPrefix) && OccursAt(fragment, pat, k)
    requires n == RunLength(fragment, IndexPrefix)
    ensures OccursAt(fragment[n..], pat, k - n)
  {
    assert fragment[k] == fragment[k..k + |pat|][0];
    assert k >= n;
    var e := fragment[n..];
    assert e[k - n..k - n + |pat|] == fragment[k..k + |pat|];
  }

  /** A fragment aborts the extraction exactly when it is non-empty and
      lacks the `Alarmiert` marker. */
  lemma UnitEntryFails(fragment: String)
    ensures UnitEntry(fragment).Err? <==> fragment != [] && !Contains(fragment, UnitMarker)
  {
    if fragment != [] {
      UnitEntryOfParts(fragment);
      StripKeepsUnitMarker(fragment);
    }
  }

  /** The unit lines fail exactly when some fragment fails, and then with the
      failure of the first failing fragment. */
  lemma UnitLinesFail(fragments: seq<String>)
    ensures UnitLines(fragments).Err? <==> exists i :: 0 <= i < |fragments| && UnitEntry(fragments[i]).Err?
    ensures UnitLines(fragments).Err? ==>
              exists i :: 0 <= i < |fragments| && UnitEntry(fragments[i]) == Err(UnitLines(fragments).failure)
                          && forall j :: 0 <= j < i ==> UnitEntry(fragments[j]).Ok?
  {
    if UnitLines(fragments).Err? {
      var i := FirstFailure(fragments);
    } else {
      EntriesOfLines(fragments);
    }
  }

  /** A failing roster names the first fragment that fails. */
  lemma {:induction false} FirstFailure(fragments: seq<String>) returns (i: nat)
    requires UnitLines(fragments).Err?
    ensures i < |fragments| && UnitEntry(fragments[i]) == Err(UnitLines(fragments).failure)
    ensures forall j :: 0 <= j < i ==> UnitEntry(fragments[j]).Ok?
    decreases |fragments|
  {
    var n := |fragments| - 1;
    var init := fragments[..n];
    if UnitLines(init).Err? {
      i := FirstFailure(init);
      assert forall j :: 0 <= j <= i ==> init[j] == fragments[j];
    } else {
      i := n;
      EntriesOfLines(init);
      assert forall j :: 0 <= j < n ==> init[j] == fragments[j];
    }
  }

  /** A roster that succeeds has a successful entry for every fragment. */
  lemma {:induction false} EntriesOfLines(fragments: seq<String>)
    requires UnitLines(fragments).Ok?
    ensures forall i :: 0 <= i < |fragments| ==> UnitEntry(fragments[i]).Ok?
    decreases |fragments|
  {
    if fragments != [] {
      var n := |fragments| - 1;
      var init := fragments[..n];
      EntriesOfLines(init);
      assert forall j :: 0 <= j < n ==> init[j] == fragments[j];
    }
  }

  /** The vehicle fields fail exactly when some non-empty fragment of the
      section lacks the `Alarmiert` marker. */
  lemma VehicleFieldsFail(section: String)
    ensures VehicleFields(section).Err? <==>
              exists f :: f in Fragments(section) && f != [] && !Contains(f, UnitMarker)
  {
    FragmentsFail(Fragments(section));
  }

  lemma FragmentsFail(fragments: seq<String>)
    ensures UnitLines(fragments).Err? <==>
              exists f :: f in fragments && f != [] && !Contains(f, UnitMarker)
  {
    UnitLinesFail(fragments);
    forall i | 0 <= i < |fragments| ensures UnitEntry(fragments[i]).Err? <==> fragments[i] != [] && !Contains(fragments[i], UnitMarker) {
      UnitEntryFails(fragments[i]);
    }
    if exists f :: f in fragments && f != [] && !Contains(f, UnitMarker) {
      var f :| f in fragments && f != [] && !Contains(f, UnitMarker);
      var i :| 0 <= i < |fragments| && fragments[i] == f;
      assert UnitEntry(fragments[i]).Err?;
    }
    if UnitLines(fragments).Err? {
      var i :| 0 <= i < |fragments| && UnitEntry(fragments[i]).Err?;
      assert fragments[i] in fragments;
    }
  }

  /** Every line of the roster comes from one fragment's entry. */
  lemma {:induction false} LinesComeFromFragments(fragments: seq<String>)
    requires UnitLines(fragments).Ok?
    ensures forall l :: l in UnitLines(fragments).value ==>
              exists i :: 0 <= i < |fragments| && UnitEntry(fragments[i]) == Ok(Some(l))
    decreases |fragments|
  {
    if fragments != [] {
      var n := |fragments| - 1;
      var init := fragments[..n];
      LinesComeFromFragments(init);
      forall l | l in UnitLines(fragments).value
        ensures exists i :: 0 <= i < |fragments| && UnitEntry(fragments[i]) == Ok(Some(l))
      {
        if l in UnitLines(init).value {
          var i :| 0 <= i < n && UnitEntry(init[i]) == Ok(Some(l));
          assert init[i] == fragments[i];
        } else {
          assert UnitEntry(fragments[n]) == Ok(Some(l));
        }
      }
    }
  }

  /** Every fragment that gives a line has that line in the roster. */
  lemma FragmentsGiveLines(fragments: seq<String>)
    requires UnitLines(fragments).Ok?
    ensures forall i :: 0 <= i < |fragments| && UnitEntry(fragments[i]).Ok? && UnitEntry(fragments[i]).value.Some? ==>
              UnitEntry(fragments[i]).value.value in UnitLines(fragments).value
  {
    forall i | 0 <= i < |fragments| && UnitEntry(fragments[i]).Ok? && UnitEntry(fragments[i]).value.Some?
      ensures UnitEntry(fragments[i]).value.value in UnitLines(fragments).value
    {
      FragmentGivesLine(fragments, i, UnitEntry(fragments[i]).value.value);
    }
  }

  lemma {:induction false} FragmentGivesLine(fragments: seq<String>, i: nat, line: String)
    requires UnitLines(fragments).Ok? && i < |fragments| && UnitEntry(fragments[i]) == Ok(Some(line))
    ensures line in UnitLines(fragments).value
    decreases |fragments|
  {
    if i == |fragments| - 1 {
      LastFragmentGivesLine(fragments, line);
    } else {
      var init := fragments[..|fragments| - 1];
      assert init[i] == fragments[i];
      var lines := EarlierLinesKept(fragments);
      FragmentGivesLine(init, i, line);
    }
  }

  /** The roster of all fragments extends the roster of all but the last. */
  lemma EarlierLinesKept(fragments: seq<String>) returns (lines: seq<String>)
    requires fragments != [] && UnitLines(fragments).Ok?
    ensures UnitLines(fragments[..|fragments| - 1]) == Ok(lines)
    ensures forall l :: l in lines ==> l in UnitLines(fragments).value
  {
    var n := |fragments| - 1;
    lines := UnitLines(fragments[..n]).value;
    UnitLinesStep(fragments, n, lines);
    assert fragments[..n + 1] == fragments;
  }

  lemma LastFragmentGivesLine(fragments: seq<String>, line: String)
    requires fragments != [] && UnitLines(fragments).Ok?
    requires UnitEntry(fragments[|fragments| - 1]) == Ok(Some(line))
    ensures line in UnitLines(fragments).value
  {
    var n := |fragments| - 1;
    var lines := UnitLines(fragments[..n]).value;
    UnitLinesStep(fragments, n, lines);
    assert fragments[..n + 1] == fragments;
  }

  /** The roster holds one line per fragment that gives a line, in fragment
      order: `idx[j]` is the fragment whose entry is line `j`, the positions
      increase, and every fragment that gives a line is among them. */
  lemma {:induction false} LinesInFragmentOrder(fragments: seq<String>) returns (idx: seq<nat>)
    requires UnitLines(fragments).Ok?
    ensures |idx| == |UnitLines(fragments).value|
    ensures forall j :: 0 <= j < |idx| ==>
              idx[j] < |fragments| && UnitEntry(fragments[idx[j]]) == Ok(Some(UnitLines(fragments).value[j]))
    ensures forall j, k :: 0 <= j < k < |idx| ==> idx[j] < idx[k]
    ensures forall i :: 0 <= i < |fragments| && UnitEntry(fragments[i]).Ok? && UnitEntry(fragments[i]).value.Some? ==>
              i in idx
    decreases |fragments|
  {
    if fragments == [] {
      idx := [];
    } else {
      var n := |fragments| - 1;
      var init := fragments[..n];
      var lines := EarlierLinesKept(fragments);
      var prev := LinesInFragmentOrder(init);
      SourcesInWhole(fragments, lines, prev);
      var all := LastLine(fragments, lines);
      idx := ExtendSources((i: nat) => LineAt(fragments, i), n, lines, prev);
      SourcesAreEntries(fragments, all, idx);
    }
  }

  /** The line fragment `i` gives, if any. */
  function LineAt(fragments: seq<String>, i: nat): Option<String>
  {
    if i < |fragments| && UnitEntry(fragments[i]).Ok? then UnitEntry(fragments[i]).value else None
  }

  /** The positions of the lines of all but the last fragment, read in the
      whole sequence. */
  lemma SourcesInWhole(fragments: seq<String>, lines: seq<String>, prev: seq<nat>)
    requires fragments != []
    requires var init := fragments[..|fragments| - 1];
      forall j :: 0 <= j < |prev| && j < |lines| ==> prev[j] < |init| && UnitEntry(init[prev[j]]) == Ok(Some(lines[j]))
    requires var init := fragments[..|fragments| - 1];
      forall i :: 0 <= i < |init| && UnitEntry(init[i]).Ok? && UnitEntry(init[i]).value.Some? ==> i in prev
    ensures forall j :: 0 <= j < |prev| && j < |lines| ==> prev[j] < |fragments| - 1 && LineAt(fragments, prev[j]) == Some(lines[j])
    ensures forall i :: 0 <= i < |fragments| - 1 && LineAt(fragments, i).Some? ==> i in prev
  {
    var init := fragments[..|fragments| - 1];
    forall j | 0 <= j < |prev| && j < |lines| ensures prev[j] < |fragments| - 1 && LineAt(fragments, prev[j]) == Some(lines[j]) {
      assert init[prev[j]] == fragments[prev[j]];
    }
    forall i | 0 <= i < |fragments| - 1 && LineAt(fragments, i).Some? ensures i in prev {
      assert init[i] == fragments[i];
    }
  }

  /** The roster of all fragments is the roster of all but the last, with the
      last one's line, if any, appended. */
  lemma LastLine(fragments: seq<String>, lines: seq<String>) returns (all: seq<String>)
    requires fragments != [] && UnitLines(fragments).Ok?
    requires UnitLines(fragments[..|fragments| - 1]) == Ok(lines)
    ensures all == UnitLines(fragments).value
    ensures var last := LineAt(fragments, |fragments| - 1);
      all == if last.Some? then lines + [last.value] else lines
  {
    var n := |fragments| - 1;
    UnitLinesStep(fragments, n, lines);
    assert fragments[..n + 1] == fragments;
    all := UnitLines(fragments).value;
  }

  /** Positions that give the roster's lines, read back as fragment entries. */
  lemma SourcesAreEntries(fragments: seq<String>, all: seq<String>, idx: seq<nat>)
    requires |idx| == |all|
    requires forall j :: 0 <= j < |idx| ==> idx[j] <= |fragments| - 1 && LineAt(fragments, idx[j]) == Some(all[j])
    requires forall i :: 0 <= i <= |fragments| - 1 && LineAt(fragments, i).Some? ==> i in idx
    ensures forall j :: 0 <= j < |idx| ==> idx[j] < |fragments| && UnitEntry(fragments[idx[j]]) == Ok(Some(all[j]))
    ensures forall i :: 0 <= i < |fragments| && UnitEntry(fragments[i]).Ok? && UnitEntry(fragments[i]).value.Some? ==> i in idx
  {
    forall j | 0 <= j < |idx| ensures idx[j] < |fragments| && UnitEntry(fragments[idx[j]]) == Ok(Some(all[j])) {
      assert LineAt(fragments, idx[j]) == Some(all[j]);
    }
    forall i | 0 <= i < |fragments| && UnitEntry(fragments[i]).Ok? && UnitEntry(fragments[i]).value.Some? ensures i in idx {
      assert LineAt(fragments, i).Some?;
    }
  }

  /** The step of LinesInFragmentOrder, for any assignment `gives` of lines to
      positions: the line at position `n`, if any, comes after the earlier ones. */
  lemma ExtendSources(gives: nat -> Option<String>, n: nat, lines: seq<String>, prev: seq<nat>) returns (idx: seq<nat>)
    requires |prev| == |lines|
    requires forall j :: 0 <= j < |prev| ==> prev[j] < n && gives(prev[j]) == Some(lines[j])
    requires forall j, k :: 0 <= j < k < |prev| ==> prev[j] < prev[k]
    requires forall i :: 0 <= i < n && gives(i).Some? ==> i in prev
    ensures var all := if gives(n).Some? then lines + [gives(n).value] else lines;
      && |idx| == |all|
      && (forall j :: 0 <= j < |idx| ==> idx[j] <= n && gives(idx[j]) == Some(all[j]))
      && (forall j, k :: 0 <= j < k < |idx| ==> idx[j] < idx[k])
      && (forall i :: 0 <= i <= n && gives(i).Some? ==> i in idx)
  {
    if gives(n).Some? {
      idx := prev + [n];
      var all := lines + [gives(n).value];
      forall j | 0 <= j < |idx| ensures idx[j] <= n && gives(idx[j]) == Some(all[j]) {
        if j < |prev| {
          assert idx[j] == prev[j] && all[j] == lines[j];
        }
      }
    } else {
      idx := prev;
    }
  }

  /** A unit's line is its name, followed by the equipment in parentheses
      exactly when the equipment is longer than three UTF-16 code units and
      not a KB equipment code; info alarms and the NEA unit get no line. */
  lemma RosterLineShape(unit: String, equipment: String)
    ensures RosterLine(unit, equipment).None? <==> Contains(unit, "Infoalarm") || unit == "NEA FF Baudenbach"
    ensures RosterLine(unit, equipment).Some? && Utf16Length(equipment) > 3 && !IsKbEquipment(equipment) ==>
              RosterLine(unit, equipment).value == unit + " (" + equipment + ")"
    ensures RosterLine(unit, equipment).Some? && (Utf16Length(equipment) <= 3 || IsKbEquipment(equipment)) ==>
              RosterLine(unit, equipment).value == unit
  {
  }

  /** A KB equipment code never reaches the roster. */
  lemma KbEquipmentIsHidden(unit: String, equipment: String)
    requires IsKbEquipment(equipment) && RosterLine(unit, equipment).Some?
    ensures RosterLine(unit, equipment).value == unit
  {
  }

  /** The equipment is the slice of the text after the last colon that
      trim() leaves: only characters up to U+0020 are removed at either end. */
  lemma EquipmentIsTextAfterLastColon(e: String) returns (a: nat, b: nat)
    ensures a <= b <= |AfterLastColon(e)| && Equipment(e) == AfterLastColon(e)[a..b]
    ensures AllTrimmable(AfterLastColon(e)[..a]) && AllTrimmable(AfterLastColon(e)[b..])
    ensures a < b ==> !IsTrimmable(AfterLastColon(e)[a]) && !IsTrimmable(AfterLastColon(e)[b - 1])
  {
    a, b := TrimIsSlice(AfterLastColon(e));
  }

  /** The equipment text holds no colon: it is what follows the last one. */
  lemma EquipmentHasNoColon(e: String)
    ensures forall i :: 0 <= i < |Equipment(e)| ==> Equipment(e)[i] != ':'
  {
    var x := AfterLastColon(e);
    assert forall k :: 0 <= k < |x| ==> !IsColon(x[k]);
    TrimKeepsNoneBad(x, IsColon);
  }

  predicate IsColon(c: char) { c == ':' }

  /** The unit name is cut before the first `Alarmiert`, so it holds none. */
  lemma UnitNameHasNoMarker(e: String)
    requires Contains(e, UnitMarker)
    ensures !Contains(Trim(e[..IndexOf(e, UnitMarker)]), UnitMarker)
  {
    TextBeforeFirstHasNone(e, UnitMarker);
  }

  lemma TextBeforeFirstHasNone(e: String, pat: String)
    requires pat != [] && Contains(e, pat)
    ensures !Contains(Trim(e[..IndexOf(e, pat)]), pat)
  {
    var idx := IndexOf(e, pat);
    var head := e[..idx];
    var unit := Trim(head);
    if Contains(unit, pat) {
      var j := TrimOccurrence(head, pat, IndexOf(unit, pat));
      assert e[0..idx] == head;
      SliceOccurrence(e, 0, idx, pat, j);
    }
  }

  /** A named unit gives a non-empty line with no blank at either end. */
  lemma RosterLineIsTrimmed(unit: String, equipment: String)
    requires IsTrimmed(unit) && unit != [] && IsTrimmed(equipment)
    requires RosterLine(unit, equipment).Some?
    ensures RosterLine(unit, equipment).value != []
    ensures IsTrimmed(RosterLine(unit, equipment).value)
  {
    var l := RosterLine(unit, equipment).value;
    assert l[0] == unit[0];
  }

  lemma {:induction false} JoinSnoc(lines: seq<String>, line: String, sep: String)
    requires lines != []
    ensures Join(lines + [line], sep) == Join(lines, sep) + sep + line
    decreases |lines|
  {
    if |lines| == 1 {
      assert (lines + [line])[1..] == [line];
    } else {
      assert (lines + [line])[1..] == lines[1..] + [line];
      JoinSnoc(lines[1..], line, sep);
    }
  }

  /** Terminating every line is joining them and terminating the last. */
  lemma {:induction false} TerminatedIsJoin(lines: seq<String>)
    requires lines != []
    ensures Terminated(lines) == Join(lines, LineSeparator) + LineSeparator
    decreases |lines|
  {
    var n := |lines| - 1;
    if n == 0 {
      assert Terminated(lines[..0]) == [];
    } else {
      TerminatedIsJoin(lines[..n]);
      JoinSnoc(lines[..n], lines[n], LineSeparator);
      assert lines[..n] + [lines[n]] == lines;
    }
  }

  /** When every line is non-empty with no blank at either end, the roster is
      the lines joined by the line separator. */
  lemma RosterIsJoinedLines(lines: seq<String>)
    requires forall l :: l in lines ==> l != [] && IsTrimmed(l)
    ensures Trim(Terminated(lines)) == Join(lines, LineSeparator)
  {
    if lines != [] {
      TerminatedIsJoin(lines);
      var j := Join(lines, LineSeparator);
      assert forall i :: 0 <= i < |lines| ==> lines[i] in lines;
      JoinEnds(lines, LineSeparator);
      TrimDropsSeparator(j);
    }
  }

  /** A join of non-empty lines starts with the first line's first character
      and ends with the last line's last character. */
  lemma {:induction false} JoinEnds(lines: seq<String>, sep: String)
    requires lines != [] && forall i :: 0 <= i < |lines| ==> lines[i] != []
    ensures Join(lines, sep) != []
    ensures Join(lines, sep)[0] == lines[0][0]
    ensures Last(Join(lines, sep)) == Last(lines[|lines| - 1])
    decreases |lines|
  {
    if |lines| > 1 {
      var rest := lines[1..];
      assert rest[|rest| - 1] == lines[|lines| - 1];
      if |rest| > 1 {
        assert forall i :: 0 <= i < |rest| ==> rest[i] == lines[i + 1];
        JoinEnds(rest, sep);
      }
      var j := Join(rest, sep);
      assert Join(lines, sep) == lines[0] + sep + j;
      assert j != [] && Last(j) == Last(lines[|lines| - 1]);
    }
  }

  lemma TrimDropsSeparator(j: String)
    requires j != [] && IsTrimmed(j)
    ensures Trim(j + LineSeparator) == j
  {
    var t := j + LineSeparator;
    assert TrimStart(t) == t;
    assert t[..|t| - 1] == j;
    assert TrimEnd(t) == TrimEnd(j);
  }
}
