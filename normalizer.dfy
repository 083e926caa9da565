/** The OCR clean-up applied to the whole fax before it is cut into sections
    (applyGlobalReplacements). */
module Normalizer {
  import opened JavaText
  import opened Patterns

  /** The fixed, ordered chain of substitutions: OCR fixes, then the address
      labels harmonised so that they can be found literally. */
  function ApplyGlobalReplacements(input: String): String
  {
    HarmonizeLabels(FixMisreadings(input))
  }

  /** Collapse dash and whitespace runs, '=' to ':', and common misreadings. */
  function FixMisreadings(input: String): String
  {
    var t := ReplaceAll(input, Run(Dash), "-");
    var t := ReplaceAll(t, Run(Space), " ");
    var t := ReplaceAll(t, Literal("=", false), ":");
    var t := ReplaceAll(t, Literal("#8", false), "#B");
    var t := ReplaceAll(t, Literal("StraBe", true), "Straße");
    var t := ReplaceAll(t, Literal("0rt", true), "Ort");
    var t := ReplaceAll(t, Literal("0bjekt", true), "Objekt");
    ReplaceAll(t, Literal("lnfo", false), "Info")
  }

  function HarmonizeLabels(t: String): String
  {
    var t := ReplaceAll(t, Label("Straße"), "Straße:");
    var t := ReplaceAll(t, Label("Haus-Nr."), "Haus-Nr.:");
    var t := ReplaceAll(t, Label("Ort"), "Ort:");
    ReplaceAll(t, Label("Objekt"), "Objekt:")
  }

  predicate NoEquals(s: String) {
    forall i :: 0 <= i < |s| ==> s[i] != '='
  }

  predicate NoDoubleDash(s: String) {
    forall i :: 0 < i < |s| ==> !(s[i - 1] == '-' && s[i] == '-')
  }

  /** Every whitespace character is a plain space and no two spaces touch. */
  predicate SingleSpaced(s: String) {
    && (forall i :: 0 <= i < |s| && IsRegexSpace(s[i]) ==> s[i] == ' ')
    && (forall i :: 0 < i < |s| ==> !(s[i - 1] == ' ' && s[i] == ' '))
  }

  predicate IsBadChar(c: char) {
    c == '=' || (IsRegexSpace(c) && c != ' ')
  }

  predicate IsBadPair(a: char, b: char) {
    (a == '-' && b == '-') || (a == ' ' && b == ' ')
  }

  /** A replacement text that cannot spoil a normalised text, checked from
      position `i` on. */
  predicate IsCleanFrom(s: String, i: nat)
    decreases |s| - i
  {
    i >= |s| || (!IsBadChar(s[i]) && (i + 1 >= |s| || !IsBadPair(s[i], s[i + 1])) && IsCleanFrom(s, i + 1))
  }

  lemma {:induction false} CleanFromHolds(s: String, i: nat)
    requires IsCleanFrom(s, i)
    ensures forall j :: i <= j < |s| ==> !IsBadChar(s[j])
    ensures forall j :: i < j < |s| ==> !IsBadPair(s[j - 1], s[j])
    decreases |s| - i
  {
    if i < |s| {
      CleanFromHolds(s, i + 1);
    }
  }

  lemma MisreadFixesAreClean()
    ensures IsCleanFrom("#B", 0) && IsCleanFrom("Straße", 0) && IsCleanFrom("Ort", 0)
    ensures IsCleanFrom("Objekt", 0) && IsCleanFrom("Info", 0)
  {
  }

  lemma LabelTextsAreClean()
    ensures IsCleanFrom("Straße:", 0) && IsCleanFrom("Haus-Nr.:", 0)
    ensures IsCleanFrom("Ort:", 0) && IsCleanFrom("Objekt:", 0)
  {
  }

  lemma CleanStep(s: String, p: Pattern, rep: String)
    requires Local(s, IsBadChar, IsBadPair)
    requires IsCleanFrom(rep, 0) && rep != []
    requires rep[0] != '-' && rep[0] != ' ' && Last(rep) != '-' && Last(rep) != ' '
    ensures Local(ReplaceAll(s, p, rep), IsBadChar, IsBadPair)
  {
    CleanFromHolds(rep, 0);
    ReplaceAllKeepsLocal(s, p, rep, IsBadChar, IsBadPair);
  }

  predicate Never(c: char) { false }
  predicate IsDashPair(a: char, b: char) { a == '-' && b == '-' }
  predicate IsOtherSpace(c: char) { IsRegexSpace(c) && c != ' ' }

  lemma CollapseDashesStep(input: String)
    ensures Local(ReplaceAll(input, Run(Dash), "-"), Never, IsDashPair)
  {
    var t1 := ReplaceAll(input, Run(Dash), "-");
    CollapseRuns(input, Dash, '-');
    assert NoNeighbours(t1, Dash);
    forall i | 0 < i < |t1| ensures !IsDashPair(t1[i - 1], t1[i]) {
      assert !(InClass(t1[i - 1], Dash) && InClass(t1[i], Dash));
    }
  }

  lemma CollapseSpacesStep(t1: String)
    requires Local(t1, Never, IsDashPair)
    ensures Local(ReplaceAll(t1, Run(Space), " "), IsOtherSpace, IsBadPair)
  {
    var t2 := ReplaceAll(t1, Run(Space), " ");
    CollapseRuns(t1, Space, ' ');
    assert OnlyMemberIs(t2, Space, ' ') && NoNeighbours(t2, Space);
    ReplaceAllKeepsLocal(t1, Run(Space), " ", Never, IsDashPair);
    forall i | 0 <= i < |t2| ensures !IsOtherSpace(t2[i]) {
      assert InClass(t2[i], Space) ==> t2[i] == ' ';
    }
    forall i | 0 < i < |t2| ensures !IsBadPair(t2[i - 1], t2[i]) {
      assert !IsDashPair(t2[i - 1], t2[i]);
      assert !(InClass(t2[i - 1], Space) && InClass(t2[i], Space));
    }
  }

  predicate IsEquals(c: char) { c == '=' }

  lemma EqualsStep(t2: String)
    requires Local(t2, IsOtherSpace, IsBadPair)
    ensures Local(ReplaceAll(t2, Literal("=", false), ":"), IsBadChar, IsBadPair)
  {
    var t3 := ReplaceAll(t2, Literal("=", false), ":");
    forall t: String | t != [] && IsEquals(t[0]) ensures MatchLength(Literal("=", false), t) > 0 {
      assert StartsWithText(t, "=", false);
    }
    ReplaceAllEliminates(t2, Literal("=", false), ":", IsEquals);
    ReplaceAllKeepsLocal(t2, Literal("=", false), ":", IsOtherSpace, IsBadPair);
    assert NoneBad(t3, IsEquals);
  }

  /** The clean-up leaves no '=', no two neighbouring dashes and no
      whitespace other than single spaces, and no later substitution brings
      any of them back. */
  lemma NormalisedText(input: String)
    ensures var r := ApplyGlobalReplacements(input);
      NoEquals(r) && NoDoubleDash(r) && SingleSpaced(r)
  {
    var t1 := ReplaceAll(input, Run(Dash), "-");
    CollapseDashesStep(input);
    var t2 := ReplaceAll(t1, Run(Space), " ");
    CollapseSpacesStep(t1);
    var t3 := ReplaceAll(t2, Literal("=", false), ":");
    EqualsStep(t2);
    MisreadFixesAreClean();
    var t4 := ReplaceAll(t3, Literal("#8", false), "#B");
    CleanStep(t3, Literal("#8", false), "#B");
    var t5 := ReplaceAll(t4, Literal("StraBe", true), "Straße");
    CleanStep(t4, Literal("StraBe", true), "Straße");
    var t6 := ReplaceAll(t5, Literal("0rt", true), "Ort");
    CleanStep(t5, Literal("0rt", true), "Ort");
    var t7 := ReplaceAll(t6, Literal("0bjekt", true), "Objekt");
    CleanStep(t6, Literal("0bjekt", true), "Objekt");
    CleanStep(t7, Literal("lnfo", false), "Info");
    HarmonizeIsClean(FixMisreadings(input));
  }

  lemma HarmonizeIsClean(t8: String)
    requires Local(t8, IsBadChar, IsBadPair)
    ensures Local(HarmonizeLabels(t8), IsBadChar, IsBadPair)
  {
    LabelTextsAreClean();
    var t9 := ReplaceAll(t8, Label("Straße"), "Straße:");
    CleanStep(t8, Label("Straße"), "Straße:");
    var t10 := ReplaceAll(t9, Label("Haus-Nr."), "Haus-Nr.:");
    CleanStep(t9, Label("Haus-Nr."), "Haus-Nr.:");
    var t11 := ReplaceAll(t10, Label("Ort"), "Ort:");
    CleanStep(t10, Label("Ort"), "Ort:");
    CleanStep(t11, Label("Objekt"), "Objekt:");
  }

  // ---------------------------------------------------------------------
  // Harmonised address labels

  /** A label name: not empty, without colons and without whitespace. */
  predicate IsLabelName(name: String) {
    name != [] && forall i :: 0 <= i < |name| ==> name[i] != ':' && !IsRegexSpace(name[i])
  }

  predicate IsAddressLabel(name: String) {
    name == "Straße" || name == "Haus-Nr." || name == "Ort" || name == "Objekt"
  }

  /** The two loose spellings `name :` and `name: ` of a label. */
  predicate IsLooseLabel(w: String, name: String) {
    w == name + " :" || w == name + ": "
  }

  ghost predicate Absent(s: String, w: String) {
    forall k :: !OccursAt(s, w, k)
  }

  /** The characters of `w` from position `d` on appear in `s` from position `k` on. */
  predicate WindowAt(s: String, w: String, d: nat, k: nat) {
    d <= |w| && k + |w| - d <= |s| && s[k..k + |w| - d] == w[d..]
  }

  predicate StartsNonSpace(t: String) {
    t == [] || !IsRegexSpace(t[0])
  }

  lemma WindowChar(s: String, w: String, d: nat, k: nat, i: nat)
    requires WindowAt(s, w, d, k) && i < |w| - d
    ensures s[k + i] == w[d + i]
  {
    assert s[k..k + |w| - d][i] == w[d..][i];
  }

  lemma AddressLabelsAreNames(name: String)
    requires IsAddressLabel(name)
    ensures IsLabelName(name)
  {
  }

  lemma LooseLabelChars(w: String, name: String)
    requires IsLabelName(name) && IsLooseLabel(w, name)
    ensures |w| == |name| + 2
    ensures forall j :: 0 <= j < |name| ==> w[j] != ':' && !IsRegexSpace(w[j])
    ensures w == name + " :" ==> w[|name|] == ' ' && w[|name| + 1] == ':'
    ensures w == name + ": " ==> w[|name|] == ':' && w[|name| + 1] == ' '
  {
    forall j | 0 <= j < |name| ensures w[j] != ':' && !IsRegexSpace(w[j]) {
      assert w[j] == name[j];
    }
  }

  lemma OccursShift(a: String, b: String, w: String, k: int)
    requires OccursAt(a + b, w, k) && k >= |a|
    ensures OccursAt(b, w, k - |a|)
  {
    assert (a + b)[k..k + |w|] == b[k - |a|..k - |a| + |w|];
  }

  /** What follows a harmonised label in the output does not start with
      whitespace: the pattern swallowed all of it. */
  lemma AfterLabelOutput(s: String, other: String, m: nat)
    requires IsLabelName(other) && m == MatchLength(Label(other), s) && m > 0
    ensures StartsNonSpace(ReplaceAll(s[m..], Label(other), other + ":"))
  {
    var colon := |other| + RunLength(s[|other|..], Space);
    var tail := s[colon + 1..];
    assert m == colon + 1 + RunLength(tail, Space);
    if m < |s| {
      assert s[m..] == tail[RunLength(tail, Space)..];
      assert (other + ":")[0] == other[0];
      FirstOutput(s[m..], Label(other), other + ":");
    }
  }

  /** A loose spelling at the start of the text is a match of the pattern. */
  lemma LooseStartsMatch(s: String, name: String, w: String)
    requires IsLabelName(name) && IsLooseLabel(w, name) && OccursAt(s, w, 0)
    ensures MatchLength(Label(name), s) > 0
  {
    assert s[..|w|] == w;
    assert s[..|name|] == w[..|name|] == name;
    var t := s[|name|..];
    assert t[0] == w[|name|] && t[1] == w[|name| + 1];
    if w == name + " :" {
      assert t[1..][0] == ':';
      assert RunLength(t[1..], Space) == 0;
      assert RunLength(t, Space) == 1;
    } else {
      assert RunLength(t, Space) == 0;
    }
  }

  /** The characters a window of `w` over `other:` followed by `rest` pins down. */
  lemma WindowOverReplacement(other: String, rest: String, w: String, d: nat, k: nat)
    requires WindowAt(other + ":" + rest, w, d, k) && k <= |other|
    ensures |other| - k >= |w| - d > 0 ==> w[|w| - 1] == other[k + |w| - d - 1]
    ensures |other| - k < |w| - d ==> w[d + |other| - k] == ':'
    ensures 0 < |other| - k < |w| - d ==> w[d + |other| - k - 1] == other[|other| - 1]
    ensures |other| - k + 1 < |w| - d ==> w[d + |other| - k + 1] == rest[0]
  {
    var out := other + ":" + rest;
    var n := |w| - d;
    var i0 := |other| - k;
    if i0 >= n > 0 {
      WindowChar(out, w, d, k, n - 1);
    }
    if i0 < n {
      WindowChar(out, w, d, k, i0);
    }
    if 0 < i0 < n {
      WindowChar(out, w, d, k, i0 - 1);
    }
    if i0 + 1 < n {
      WindowChar(out, w, d, k, i0 + 1);
    }
  }

  /** A window of a loose spelling cannot cover the colon of a harmonised
      label: the text before that colon has no space or colon, and the text
      after it starts with no whitespace. */
  lemma NoWindowOverReplacement(other: String, rest: String, name: String, w: String, d: nat, k: nat)
    requires IsLabelName(other) && IsLabelName(name) && IsLooseLabel(w, name)
    requires StartsNonSpace(rest)
    requires k <= |other| && d < |w| && (d == 0 || k == 0)
    ensures !WindowAt(other + ":" + rest, w, d, k)
  {
    LooseLabelChars(w, name);
    if WindowAt(other + ":" + rest, w, d, k) {
      WindowOverReplacement(other, rest, w, d, k);
    }
  }

  /** Without a match among the first characters after a copied one, an
      occurrence at the start of the output is one in the input. */
  lemma CopiedOccurrence(s: String, rep: String, p: Pattern, w: String, bound: nat)
    requires s != [] && |w| >= 1
    requires bound == if |w| - 1 <= |s| - 1 then |w| - 1 else |s| - 1
    requires forall i :: 0 <= i < bound ==> MatchLength(p, s[1..][i..]) == 0
    requires OccursAt([s[0]] + ReplaceAll(s[1..], p, rep), w, 0)
    ensures OccursAt(s, w, 0)
  {
    var n := bound + 1;
    var out := [s[0]] + ReplaceAll(s[1..], p, rep);
    CopiedOutput(s, rep, p, bound);
    if bound == |s| - 1 {
      assert s[n..] == [] && s[..n] == s;
    } else {
      SharedPrefixOccurrence(out, s, w, n);
    }
  }

  /** The first match after a copied character puts `other:` inside the window. */
  lemma MatchedWindow(s: String, other: String, w: String, j: nat) returns (rest: String)
    requires IsLabelName(other) && s != [] && j < |w| - 1 && j < |s| - 1
    requires forall i :: 0 <= i < j ==> MatchLength(Label(other), s[1..][i..]) == 0
    requires MatchLength(Label(other), s[1..][j..]) > 0
    requires OccursAt([s[0]] + ReplaceAll(s[1..], Label(other), other + ":"), w, 0)
    ensures StartsNonSpace(rest) && WindowAt(other + ":" + rest, w, 1 + j, 0)
  {
    var u := s[1..];
    var p := Label(other);
    var R := other + ":";
    var v := u[j..];
    var mm := MatchLength(p, v);
    rest := ReplaceAll(v[mm..], p, R);
    KeptPrefix(u, p, R, j);
    MatchStep(v, p, R);
    AfterLabelOutput(v, other, mm);
    var out := [s[0]] + ReplaceAll(u, p, R);
    assert out == [s[0]] + u[..j] + (R + rest);
    assert out[1 + j..] == R + rest;
    assert out[1 + j..|w|] == w[1 + j..];
  }

  /** A loose spelling cannot start at a copied character. */
  lemma NoLooseAcrossCopy(s: String, name: String, other: String, w: String)
    requires IsLabelName(name) && IsLabelName(other) && IsLooseLabel(w, name)
    requires s != [] && MatchLength(Label(other), s) == 0
    requires other == name || !OccursAt(s, w, 0)
    ensures !OccursAt([s[0]] + ReplaceAll(s[1..], Label(other), other + ":"), w, 0)
  {
    LooseLabelChars(w, name);
    var u := s[1..];
    var p := Label(other);
    if OccursAt([s[0]] + ReplaceAll(u, p, other + ":"), w, 0) {
      var bound := if |w| - 1 <= |u| then |w| - 1 else |u|;
      var j := FirstMatch(u, p, 0, bound);
      if j == bound {
        CopiedOccurrence(s, other + ":", p, w, bound);
        if other == name {
          LooseStartsMatch(s, name, w);
        }
      } else {
        var rest := MatchedWindow(s, other, w, j);
        NoWindowOverReplacement(other, rest, name, w, 1 + j, 0);
      }
    }
  }

  /** Harmonising one label removes its loose spellings and, for any other
      label, brings none back. */
  lemma {:induction false} HarmonizeRemovesLoose(s: String, name: String, other: String, w: String)
    requires IsLabelName(name) && IsLabelName(other) && IsLooseLabel(w, name)
    requires other == name || Absent(s, w)
    ensures Absent(ReplaceAll(s, Label(other), other + ":"), w)
    decreases |s|
  {
    if s != [] {
      var m := MatchLength(Label(other), s);
      var step := if m > 0 then m else 1;
      SuffixOccurrence(s, w, step);
      HarmonizeRemovesLoose(s[step..], name, other, w);
      if m > 0 {
        LooseGoneAfterMatch(s, name, other, w);
      } else {
        LooseGoneAfterCopy(s, name, other, w);
      }
    }
  }

  /** The step of HarmonizeRemovesLoose where a label is rewritten. */
  lemma LooseGoneAfterMatch(s: String, name: String, other: String, w: String)
    requires IsLabelName(name) && IsLabelName(other) && IsLooseLabel(w, name)
    requires MatchLength(Label(other), s) > 0
    requires Absent(ReplaceAll(s[MatchLength(Label(other), s)..], Label(other), other + ":"), w)
    ensures Absent(ReplaceAll(s, Label(other), other + ":"), w)
  {
    var p := Label(other);
    var R := other + ":";
    var m := MatchLength(p, s);
    var rest := ReplaceAll(s[m..], p, R);
    MatchStep(s, p, R);
    AfterLabelOutput(s, other, m);
    var out := ReplaceAll(s, p, R);
    assert out == R + rest;
    forall k ensures !OccursAt(out, w, k) {
      if OccursAt(out, w, k) {
        if k >= |R| {
          OccursShift(R, rest, w, k);
        } else {
          assert out[k..k + |w|] == w[0..];
          NoWindowOverReplacement(other, rest, name, w, 0, k);
        }
      }
    }
  }

  /** The step of HarmonizeRemovesLoose where a character is copied. */
  lemma LooseGoneAfterCopy(s: String, name: String, other: String, w: String)
    requires IsLabelName(name) && IsLabelName(other) && IsLooseLabel(w, name)
    requires s != [] && MatchLength(Label(other), s) == 0
    requires other == name || Absent(s, w)
    requires Absent(ReplaceAll(s[1..], Label(other), other + ":"), w)
    ensures Absent(ReplaceAll(s, Label(other), other + ":"), w)
  {
    var p := Label(other);
    var R := other + ":";
    var rest := ReplaceAll(s[1..], p, R);
    CopyStep(s, p, R);
    var out := ReplaceAll(s, p, R);
    forall k ensures !OccursAt(out, w, k) {
      if OccursAt(out, w, k) {
        if k >= 1 {
          OccursShift([s[0]], rest, w, k);
        } else {
          NoLooseAcrossCopy(s, name, other, w);
        }
      }
    }
  }

  /** After harmonisation no address label is followed by " :" or ": ". */
  lemma HarmonizedHasNoLooseLabel(t: String, name: String, w: String)
    requires IsAddressLabel(name) && IsLooseLabel(w, name)
    ensures Absent(HarmonizeLabels(t), w)
  {
    AddressLabelsAreNames("Straße");
    AddressLabelsAreNames("Haus-Nr.");
    AddressLabelsAreNames("Ort");
    AddressLabelsAreNames("Objekt");
    var t9 := ReplaceAll(t, Label("Straße"), "Straße:");
    var t10 := ReplaceAll(t9, Label("Haus-Nr."), "Haus-Nr.:");
    var t11 := ReplaceAll(t10, Label("Ort"), "Ort:");
    assert "Straße" + ":" == "Straße:" && "Haus-Nr." + ":" == "Haus-Nr.:";
    assert "Ort" + ":" == "Ort:" && "Objekt" + ":" == "Objekt:";
    if name == "Straße" {
      HarmonizeRemovesLoose(t, name, "Straße", w);
    }
    if name == "Straße" || name == "Haus-Nr." {
      HarmonizeRemovesLoose(t9, name, "Haus-Nr.", w);
    }
    if name != "Objekt" {
      HarmonizeRemovesLoose(t10, name, "Ort", w);
    }
    HarmonizeRemovesLoose(t11, name, "Objekt", w);
  }

  /** In single-spaced text a match of `name\s*:\s*` is either a loose
      spelling or exactly `name:`. */
  lemma LabelMatchShape(s: String, name: String, k: nat)
    requires SingleSpaced(s) && IsLabelName(name) && k <= |s|
    requires LabelLength(name, s[k..]) > 0
    ensures || OccursAt(s, name + " :", k) || OccursAt(s, name + ": ", k)
            || (LabelLength(name, s[k..]) == |name| + 1 && OccursAt(s, name + ":", k))
  {
    var i := k + |name|;
    var w, v := LabelParts(s, name, k);
    if w > 0 {
      SpaceThenColon(s, i);
      OccursConcat(s, name, " :", k);
    } else if v > 0 {
      SpaceThenColon(s, i + 1);
      OccursConcat(s, name, ": ", k);
    } else {
      OccursConcat(s, name, ":", k);
    }
  }

  /** A match of `name\s*:\s*` at `k`: the name, `w` blanks, the colon, `v` blanks. */
  lemma LabelParts(s: String, name: String, k: nat) returns (w: nat, v: nat)
    requires k <= |s| && LabelLength(name, s[k..]) > 0
    ensures OccursAt(s, name, k)
    ensures w == RunLength(s[k + |name|..], Space)
    ensures k + |name| + w < |s| && s[k + |name| + w] == ':'
    ensures v == RunLength(s[k + |name| + w + 1..], Space)
    ensures LabelLength(name, s[k..]) == |name| + w + 1 + v
  {
    var t := s[k..];
    var i := k + |name|;
    assert t[..|name|] == s[k..i];
    assert t[|name|..] == s[i..];
    w := RunLength(s[i..], Space);
    assert t[|name| + w] == s[i + w];
    assert t[|name| + w + 1..] == s[i + w + 1..];
    v := RunLength(s[i + w + 1..], Space);
  }

  /** In single-spaced text a whitespace run is one space, so a colon after
      it sits right behind that space. */
  lemma SpaceThenColon(s: String, i: nat)
    requires SingleSpaced(s) && i <= |s| && RunLength(s[i..], Space) > 0
    ensures s[i] == ' ' && RunLength(s[i..], Space) == 1
  {
    assert s[i..][0] == s[i];
    assert s[i..][1..] == s[i + 1..];
    if i + 1 < |s| {
      assert s[i + 1..][0] == s[i + 1];
    }
  }

  /** Wherever the harmonising pattern of an address label matches in the
      normalised text, it matches exactly the label and its colon. */
  lemma HarmonizedLabelsAreExact(input: String, name: String, k: nat)
    requires IsAddressLabel(name) && k <= |ApplyGlobalReplacements(input)|
    ensures LabelLength(name, ApplyGlobalReplacements(input)[k..]) > 0 ==>
              && LabelLength(name, ApplyGlobalReplacements(input)[k..]) == |name| + 1
              && OccursAt(ApplyGlobalReplacements(input), name + ":", k)
  {
    var r := ApplyGlobalReplacements(input);
    NormalisedText(input);
    AddressLabelsAreNames(name);
    HarmonizedHasNoLooseLabel(FixMisreadings(input), name, name + " :");
    HarmonizedHasNoLooseLabel(FixMisreadings(input), name, name + ": ");
    if LabelLength(name, r[k..]) > 0 {
      LabelMatchShape(r, name, k);
    }
  }

  // ---------------------------------------------------------------------
  // One pass is enough

  /** None of the misreadings the clean-up corrects is left in the text. */
  predicate NoMisreading(s: String) {
    && NoText(s, "#8", false) && NoText(s, "StraBe", true) && NoText(s, "0rt", true)
    && NoText(s, "0bjekt", true) && NoText(s, "lnfo", false)
  }

  /** No misreading can overlap a text that a substitution puts in. Most
      pairs are apart by their first characters alone. */
  lemma HashEightCannotOverlapFixes()
    ensures Unalignable("#8", "Straße", false)
    ensures Unalignable("#8", "Ort", false)
    ensures Unalignable("#8", "Objekt", false)
    ensures Unalignable("#8", "Info", false)
  {
    ApartByFirstChars("#8", "Straße", false);
    ApartByFirstChars("#8", "Ort", false);
    ApartByFirstChars("#8", "Objekt", false);
    ApartByFirstChars("#8", "Info", false);
  }

  lemma HashEightCannotOverlapLabels()
    ensures Unalignable("#8", "Straße:", false)
    ensures Unalignable("#8", "Haus-Nr.:", false)
  {
    ApartByFirstChars("#8", "Straße:", false);
    ApartByFirstChars("#8", "Haus-Nr.:", false);
  }

  lemma HashEightCannotOverlapLaterLabels()
    ensures Unalignable("#8", "Ort:", false)
    ensures Unalignable("#8", "Objekt:", false)
  {
    ApartByFirstChars("#8", "Ort:", false);
    ApartByFirstChars("#8", "Objekt:", false);
  }

  lemma StreetMisreadingCannotOverlapFixes()
    ensures Unalignable("StraBe", "Ort", true)
    ensures Unalignable("StraBe", "Objekt", true)
    ensures Unalignable("StraBe", "Info", true)
  {
    ApartByFirstChars("StraBe", "Ort", true);
    ApartByFirstChars("StraBe", "Objekt", true);
    ApartByFirstChars("StraBe", "Info", true);
  }

  lemma StreetMisreadingCannotOverlapLabels()
    ensures Unalignable("StraBe", "Ort:", true)
    ensures Unalignable("StraBe", "Objekt:", true)
  {
    ApartByFirstChars("StraBe", "Ort:", true);
    ApartByFirstChars("StraBe", "Objekt:", true);
  }

  lemma PlaceMisreadingCannotOverlapFixes()
    ensures Unalignable("0rt", "Ort", true)
    ensures Unalignable("0rt", "Objekt", true)
    ensures Unalignable("0rt", "Info", true)
  {
    ApartByFirstChars("0rt", "Ort", true);
    ApartByFirstChars("0rt", "Objekt", true);
    ApartByFirstChars("0rt", "Info", true);
  }

  lemma PlaceMisreadingCannotOverlapLabels()
    ensures Unalignable("0rt", "Straße:", true)
    ensures Unalignable("0rt", "Haus-Nr.:", true)
  {
    ApartByFirstChars("0rt", "Straße:", true);
    ApartByFirstChars("0rt", "Haus-Nr.:", true);
  }

  lemma PlaceMisreadingCannotOverlapLaterLabels()
    ensures Unalignable("0rt", "Ort:", true)
    ensures Unalignable("0rt", "Objekt:", true)
  {
    ApartByFirstChars("0rt", "Ort:", true);
    ApartByFirstChars("0rt", "Objekt:", true);
  }

  lemma ObjectMisreadingCannotOverlapFixes()
    ensures Unalignable("0bjekt", "Objekt", true)
    ensures Unalignable("0bjekt", "Info", true)
  {
    ApartByFirstChars("0bjekt", "Objekt", true);
    ApartByFirstChars("0bjekt", "Info", true);
  }

  lemma ObjectMisreadingCannotOverlapLabels()
    ensures Unalignable("0bjekt", "Straße:", true)
    ensures Unalignable("0bjekt", "Haus-Nr.:", true)
  {
    ApartByFirstChars("0bjekt", "Straße:", true);
    ApartByFirstChars("0bjekt", "Haus-Nr.:", true);
  }

  lemma ObjectMisreadingCannotOverlapLaterLabels()
    ensures Unalignable("0bjekt", "Ort:", true)
    ensures Unalignable("0bjekt", "Objekt:", true)
  {
    ApartByFirstChars("0bjekt", "Ort:", true);
    ApartByFirstChars("0bjekt", "Objekt:", true);
  }

  lemma InfoMisreadingCannotOverlapFixes()
    ensures Unalignable("lnfo", "Info", false)
  {
    ApartByFirstChars("lnfo", "Info", false);
  }

  lemma InfoMisreadingCannotOverlapLabels()
    ensures Unalignable("lnfo", "Straße:", false)
    ensures Unalignable("lnfo", "Haus-Nr.:", false)
  {
    ApartByFirstChars("lnfo", "Straße:", false);
    ApartByFirstChars("lnfo", "Haus-Nr.:", false);
  }

  lemma InfoMisreadingCannotOverlapLaterLabels()
    ensures Unalignable("lnfo", "Ort:", false)
    ensures Unalignable("lnfo", "Objekt:", false)
  {
    ApartByFirstChars("lnfo", "Ort:", false);
    ApartByFirstChars("lnfo", "Objekt:", false);
  }

  lemma HashEightCannotOverlapItsFix()
    ensures Unalignable("#8", "#B", false)
  {
  }

  lemma StreetMisreadingCannotOverlapStreet()
    ensures Unalignable("StraBe", "Straße", true)
  {
  }

  lemma StreetMisreadingCannotOverlapStreetLabel()
    ensures Unalignable("StraBe", "Straße:", true)
  {
  }

  lemma StreetMisreadingCannotOverlapHouseLabel()
    ensures Unalignable("StraBe", "Haus-Nr.:", true)
  {
  }

  /** The harmonised label texts cannot overlap any misreading. */
  predicate KeepsMisreadingsOut(rep: String) {
    && Unalignable("#8", rep, false) && Unalignable("StraBe", rep, true) && Unalignable("0rt", rep, true)
    && Unalignable("0bjekt", rep, true) && Unalignable("lnfo", rep, false)
  }

  lemma MisreadingsCannotOverlap()
    ensures Unalignable("#8", "#B", false) && Unalignable("#8", "Straße", false)
    ensures Unalignable("#8", "Ort", false) && Unalignable("#8", "Objekt", false)
    ensures Unalignable("#8", "Info", false)
    ensures Unalignable("StraBe", "Straße", true) && Unalignable("StraBe", "Ort", true)
    ensures Unalignable("StraBe", "Objekt", true) && Unalignable("StraBe", "Info", true)
    ensures Unalignable("0rt", "Ort", true) && Unalignable("0rt", "Objekt", true)
    ensures Unalignable("0rt", "Info", true)
    ensures Unalignable("0bjekt", "Objekt", true) && Unalignable("0bjekt", "Info", true)
    ensures Unalignable("lnfo", "Info", false)
    ensures KeepsMisreadingsOut("Straße:") && KeepsMisreadingsOut("Haus-Nr.:")
    ensures KeepsMisreadingsOut("Ort:") && KeepsMisreadingsOut("Objekt:")
  {
    HashEightCannotOverlapFixes();
    HashEightCannotOverlapLabels();
    HashEightCannotOverlapLaterLabels();
    StreetMisreadingCannotOverlapFixes();
    StreetMisreadingCannotOverlapLabels();
    PlaceMisreadingCannotOverlapFixes();
    PlaceMisreadingCannotOverlapLabels();
    PlaceMisreadingCannotOverlapLaterLabels();
    ObjectMisreadingCannotOverlapFixes();
    ObjectMisreadingCannotOverlapLabels();
    ObjectMisreadingCannotOverlapLaterLabels();
    InfoMisreadingCannotOverlapFixes();
    InfoMisreadingCannotOverlapLabels();
    InfoMisreadingCannotOverlapLaterLabels();
    HashEightCannotOverlapItsFix();
    StreetMisreadingCannotOverlapStreet();
    StreetMisreadingCannotOverlapStreetLabel();
    StreetMisreadingCannotOverlapHouseLabel();
  }

  /** Each fix removes its misreading and brings back none of the earlier ones. */
  lemma FixMisreadingsLeavesNone(input: String)
    ensures NoMisreading(FixMisreadings(input))
  {
    MisreadingsCannotOverlap();
    var t1 := ReplaceAll(input, Run(Dash), "-");
    var t2 := ReplaceAll(t1, Run(Space), " ");
    var t3 := ReplaceAll(t2, Literal("=", false), ":");
    var t4 := ReplaceAll(t3, Literal("#8", false), "#B");
    ReplaceAllRemoves(t3, "#8", false, "#B");
    var t5 := ReplaceAll(t4, Literal("StraBe", true), "Straße");
    ReplaceAllKeepsNoText(t4, Literal("StraBe", true), "Straße", "#8", false);
    ReplaceAllRemoves(t4, "StraBe", true, "Straße");
    var t6 := ReplaceAll(t5, Literal("0rt", true), "Ort");
    ReplaceAllKeepsNoText(t5, Literal("0rt", true), "Ort", "#8", false);
    ReplaceAllKeepsNoText(t5, Literal("0rt", true), "Ort", "StraBe", true);
    ReplaceAllRemoves(t5, "0rt", true, "Ort");
    var t7 := ReplaceAll(t6, Literal("0bjekt", true), "Objekt");
    ReplaceAllKeepsNoText(t6, Literal("0bjekt", true), "Objekt", "#8", false);
    ReplaceAllKeepsNoText(t6, Literal("0bjekt", true), "Objekt", "StraBe", true);
    ReplaceAllKeepsNoText(t6, Literal("0bjekt", true), "Objekt", "0rt", true);
    ReplaceAllRemoves(t6, "0bjekt", true, "Objekt");
    var p8 := Literal("lnfo", false);
    ReplaceAllKeepsNoText(t7, p8, "Info", "#8", false);
    ReplaceAllKeepsNoText(t7, p8, "Info", "StraBe", true);
    ReplaceAllKeepsNoText(t7, p8, "Info", "0rt", true);
    ReplaceAllKeepsNoText(t7, p8, "Info", "0bjekt", true);
    ReplaceAllRemoves(t7, "lnfo", false, "Info");
  }

  lemma ReplaceAllKeepsNoMisreading(s: String, p: Pattern, rep: String)
    requires NoMisreading(s) && rep != [] && KeepsMisreadingsOut(rep)
    ensures NoMisreading(ReplaceAll(s, p, rep))
  {
    ReplaceAllKeepsNoText(s, p, rep, "#8", false);
    ReplaceAllKeepsNoText(s, p, rep, "StraBe", true);
    ReplaceAllKeepsNoText(s, p, rep, "0rt", true);
    ReplaceAllKeepsNoText(s, p, rep, "0bjekt", true);
    ReplaceAllKeepsNoText(s, p, rep, "lnfo", false);
  }

  /** The normalised text holds none of the misreadings: no later
      substitution can bring one back. */
  lemma NoMisreadingLeft(input: String)
    ensures NoMisreading(ApplyGlobalReplacements(input))
  {
    FixMisreadingsLeavesNone(input);
    MisreadingsCannotOverlap();
    var t8 := FixMisreadings(input);
    var t9 := ReplaceAll(t8, Label("Straße"), "Straße:");
    ReplaceAllKeepsNoMisreading(t8, Label("Straße"), "Straße:");
    var t10 := ReplaceAll(t9, Label("Haus-Nr."), "Haus-Nr.:");
    ReplaceAllKeepsNoMisreading(t9, Label("Haus-Nr."), "Haus-Nr.:");
    var t11 := ReplaceAll(t10, Label("Ort"), "Ort:");
    ReplaceAllKeepsNoMisreading(t10, Label("Ort"), "Ort:");
    ReplaceAllKeepsNoMisreading(t11, Label("Objekt"), "Objekt:");
  }

  /** Normalised text passes the OCR fixes unchanged. */
  lemma FixMisreadingsFixed(r: String)
    requires NoEquals(r) && NoDoubleDash(r) && SingleSpaced(r) && NoMisreading(r)
    ensures FixMisreadings(r) == r
  {
    assert NoNeighbours(r, Dash) by {
      forall i | 0 < i < |r| ensures !(InClass(r[i - 1], Dash) && InClass(r[i], Dash)) {
      }
    }
    CollapsedIsFixed(r, Dash, '-');
    assert OnlyMemberIs(r, Space, ' ') && NoNeighbours(r, Space) by {
      forall i | 0 < i < |r| ensures !(InClass(r[i - 1], Space) && InClass(r[i], Space)) {
      }
    }
    CollapsedIsFixed(r, Space, ' ');
    forall j | 0 <= j < |r| ensures MatchLength(Literal("=", false), r[j..]) == 0 {
      assert r[j..][0] == r[j];
    }
    NoMatchIsIdentity(r, Literal("=", false), ":");
    NoMatchIsIdentity(r, Literal("#8", false), "#B");
    NoMatchIsIdentity(r, Literal("StraBe", true), "Straße");
    NoMatchIsIdentity(r, Literal("0rt", true), "Ort");
    NoMatchIsIdentity(r, Literal("0bjekt", true), "Objekt");
    NoMatchIsIdentity(r, Literal("lnfo", false), "Info");
  }

  /** In the normalised text every match of a harmonising pattern is already
      the harmonised label. */
  lemma LabelMatchesAreExact(input: String, name: String)
    requires IsAddressLabel(name)
    ensures MatchesAre(ApplyGlobalReplacements(input), Label(name), name + ":")
  {
    var r := ApplyGlobalReplacements(input);
    forall j | 0 <= j < |r| && MatchLength(Label(name), r[j..]) > 0
      ensures r[j..][..MatchLength(Label(name), r[j..])] == name + ":"
    {
      HarmonizedLabelsAreExact(input, name, j);
      assert r[j..][..|name| + 1] == r[j..j + |name| + 1];
    }
  }

  /** Normalised text passes the label harmonisation unchanged. */
  lemma HarmonizeLabelsFixed(input: String)
    ensures HarmonizeLabels(ApplyGlobalReplacements(input)) == ApplyGlobalReplacements(input)
  {
    var r := ApplyGlobalReplacements(input);
    assert "Straße" + ":" == "Straße:" && "Haus-Nr." + ":" == "Haus-Nr.:";
    assert "Ort" + ":" == "Ort:" && "Objekt" + ":" == "Objekt:";
    LabelMatchesAreExact(input, "Straße");
    ReplaceAllWithItself(r, Label("Straße"), "Straße:");
    LabelMatchesAreExact(input, "Haus-Nr.");
    ReplaceAllWithItself(r, Label("Haus-Nr."), "Haus-Nr.:");
    LabelMatchesAreExact(input, "Ort");
    ReplaceAllWithItself(r, Label("Ort"), "Ort:");
    LabelMatchesAreExact(input, "Objekt");
    ReplaceAllWithItself(r, Label("Objekt"), "Objekt:");
  }

  /** The substitution chain converges in one pass: applying it to its own
      output changes nothing. */
  lemma ReplacementsAreIdempotent(input: String)
    ensures ApplyGlobalReplacements(ApplyGlobalReplacements(input)) == ApplyGlobalReplacements(input)
  {
    var r := ApplyGlobalReplacements(input);
    NormalisedText(input);
    NoMisreadingLeft(input);
    FixMisreadingsFixed(r);
    HarmonizeLabelsFixed(input);
  }
}
