/** The few regular expressions the extractor hands to String.replaceAll and
    String.split, each as a pattern shape with its own match function, and the
    left-to-right scan that replaceAll and split perform with them. */
module Patterns {
  import opened JavaText

  /** The character classes that occur in the source's regexes. */
  datatype CharClass =
    | Dash          // -
    | Space         // \s
    | NonDigit      // \D
    | IndexPrefix   // [\d\.\s]

  predicate InClass(c: char, k: CharClass) {
    match k
    case Dash => c == '-'
    case Space => IsRegexSpace(c)
    case NonDigit => !IsDigit(c)
    case IndexPrefix => IsDigit(c) || c == '.' || IsRegexSpace(c)
  }

  /** Length of the longest prefix of `s` made of characters of class `k`
      (what a greedy `[k]*` consumes). */
  function RunLength(s: String, k: CharClass): (n: nat)
    ensures n <= |s|
    ensures forall i :: 0 <= i < n ==> InClass(s[i], k)
    ensures n == |s| || !InClass(s[n], k)
  {
    if s != [] && InClass(s[0], k) then 1 + RunLength(s[1..], k) else 0
  }

  /** The pattern shapes used: none of them matches the empty string. */
  datatype Pattern =
    | Run(cls: CharClass)                      // [cls]+
    | Literal(text: String, ignoreCase: bool)  // the text itself; (?i) when ignoreCase
    | Label(name: String)                      // name\s*:\s*

  /** (?i) without UNICODE_CASE folds ASCII letters only. */
  function AsciiLower(c: char): char {
    if 'A' <= c <= 'Z' then (c as int + 32) as char else c
  }

  predicate SameChar(a: char, b: char, ignoreCase: bool) {
    a == b || (ignoreCase && AsciiLower(a) == AsciiLower(b))
  }

  predicate StartsWithText(s: String, t: String, ignoreCase: bool) {
    |t| <= |s| && forall i :: 0 <= i < |t| ==> SameChar(s[i], t[i], ignoreCase)
  }

  /** Length of the match of `p` at the start of `s`; 0 when there is none. */
  function MatchLength(p: Pattern, s: String): (n: nat)
    ensures n <= |s|
  {
    match p
    case Run(k) => RunLength(s, k)
    case Literal(t, ci) => if StartsWithText(s, t, ci) then |t| else 0
    case Label(name) => LabelLength(name, s)
  }

  /** Length of the match of `name\s*:\s*` at the start of `s`; 0 when there is none. */
  function LabelLength(name: String, s: String): (n: nat)
    ensures n <= |s|
  {
    if |name| <= |s| && s[..|name|] == name then
      var colon := |name| + RunLength(s[|name|..], Space);
      if colon < |s| && s[colon] == ':' then colon + 1 + RunLength(s[colon + 1..], Space) else 0
    else 0
  }

  /** String.replaceAll: scan from the left; at each position either the
      pattern matches (emit the replacement, resume after the match) or the
      character is copied. */
  function ReplaceAll(s: String, p: Pattern, rep: String): String
    decreases |s|
  {
    if s == [] then []
    else if MatchLength(p, s) > 0 then rep + ReplaceAll(s[MatchLength(p, s)..], p, rep)
    else [s[0]] + ReplaceAll(s[1..], p, rep)
  }

  /** The same scan as ReplaceAll, but collecting the text between matches. */
  function SplitFrom(s: String, p: Pattern, current: String): (pieces: seq<String>)
    decreases |s|
    ensures |pieces| >= 1
  {
    if s == [] then [current]
    else if MatchLength(p, s) > 0 then [current] + SplitFrom(s[MatchLength(p, s)..], p, [])
    else SplitFrom(s[1..], p, current + [s[0]])
  }

  function DropTrailingEmpty(pieces: seq<String>): (r: seq<String>)
    ensures |r| <= |pieces| && r == pieces[..|r|]
    ensures r == [] || r[|r| - 1] != []
    ensures forall i :: |r| <= i < |pieces| ==> pieces[i] == []
  {
    if pieces != [] && pieces[|pieces| - 1] == [] then DropTrailingEmpty(pieces[..|pieces| - 1])
    else pieces
  }

  /** String.split(regex) with limit 0: the pieces between matches, without
      the trailing empty ones; with no match at all it is the input alone. */
  function Split(s: String, p: Pattern): seq<String>
  {
    var pieces := SplitFrom(s, p, []);
    if |pieces| == 1 then pieces else DropTrailingEmpty(pieces)
  }

  // ---------------------------------------------------------------------
  // Properties of the scan

  /** A match found on a prefix is still a match when more text follows. */
  lemma MatchExtends(p: Pattern, a: String, b: String)
    requires MatchLength(p, a) > 0
    ensures MatchLength(p, a + b) > 0
  {
    match p
    case Run(k) =>
      assert (a + b)[0] == a[0];
    case Literal(t, ci) =>
      LiteralExtends(t, ci, a, b);
    case Label(name) =>
      LabelExtends(name, a, b);
  }

  lemma LiteralExtends(t: String, ci: bool, a: String, b: String)
    requires StartsWithText(a, t, ci)
    ensures StartsWithText(a + b, t, ci)
  {
    var ab := a + b;
    forall i | 0 <= i < |t| ensures SameChar(ab[i], t[i], ci) {
      assert ab[i] == a[i];
    }
  }

  lemma LabelExtends(name: String, a: String, b: String)
    requires LabelLength(name, a) > 0
    ensures LabelLength(name, a + b) > 0
  {
    var ab := a + b;
    var rest := a[|name|..];
    assert ab[..|name|] == a[..|name|];
    var w := RunLength(rest, Space);
    RunPrefix(rest, b, Space);
    assert rest + b == ab[|name|..];
    assert ab[|name| + w] == a[|name| + w];
  }

  lemma RunPrefix(a: String, b: String, k: CharClass)
    requires RunLength(a, k) < |a|
    ensures RunLength(a + b, k) == RunLength(a, k)
  {
    if a != [] && InClass(a[0], k) {
      assert (a + b)[1..] == a[1..] + b;
      RunPrefix(a[1..], b, k);
    }
  }

  /** Positions where no match starts are copied unchanged. */
  lemma {:induction false} KeptPrefix(s: String, p: Pattern, rep: String, n: nat)
    requires n <= |s|
    requires forall j :: 0 <= j < n ==> MatchLength(p, s[j..]) == 0
    ensures ReplaceAll(s, p, rep) == s[..n] + ReplaceAll(s[n..], p, rep)
  {
    if n > 0 {
      var u := s[1..];
      assert s[0..] == s;
      CopyStep(s, p, rep);
      forall j | 0 <= j < n - 1 ensures MatchLength(p, u[j..]) == 0 {
        assert u[j..] == s[j + 1..];
      }
      KeptPrefix(u, p, rep, n - 1);
      var r := ReplaceAll(u[n - 1..], p, rep);
      assert u[n - 1..] == s[n..];
      assert [s[0]] + (u[..n - 1] + r) == ([s[0]] + u[..n - 1]) + r;
      assert [s[0]] + u[..n - 1] == s[..n];
    }
  }

  lemma CopyStep(s: String, p: Pattern, rep: String)
    requires s != [] && MatchLength(p, s) == 0
    ensures ReplaceAll(s, p, rep) == [s[0]] + ReplaceAll(s[1..], p, rep)
  {
  }

  /** The first position from `from` on and below `n` where `p` matches in
      `u`; `n` when there is none. */
  lemma {:induction false} FirstMatch(u: String, p: Pattern, from: nat, n: nat) returns (j: nat)
    requires from <= n <= |u|
    decreases n - from
    ensures from <= j <= n
    ensures forall i :: from <= i < j ==> MatchLength(p, u[i..]) == 0
    ensures j < n ==> MatchLength(p, u[j..]) > 0
  {
    if from == n || MatchLength(p, u[from..]) > 0 {
      j := from;
    } else {
      j := FirstMatch(u, p, from + 1, n);
      forall i | from <= i < j ensures MatchLength(p, u[i..]) == 0 {
        if i > from {
          assert from + 1 <= i < j;
        }
      }
    }
  }

  lemma MatchStep(s: String, p: Pattern, rep: String)
    requires MatchLength(p, s) > 0
    ensures ReplaceAll(s, p, rep) == rep + ReplaceAll(s[MatchLength(p, s)..], p, rep)
  {
  }

  /** Text in which the pattern matches nowhere is left as it is. */
  lemma NoMatchIsIdentity(s: String, p: Pattern, rep: String)
    requires forall j :: 0 <= j < |s| ==> MatchLength(p, s[j..]) == 0
    ensures ReplaceAll(s, p, rep) == s
  {
    KeptPrefix(s, p, rep, |s|);
    assert s[|s|..] == [];
  }

  /** The first character of the output is the first of the replacement or
      the first of the input. */
  lemma FirstOutput(s: String, p: Pattern, rep: String)
    requires s != [] && rep != []
    ensures ReplaceAll(s, p, rep) != []
    ensures ReplaceAll(s, p, rep)[0] == if MatchLength(p, s) > 0 then rep[0] else s[0]
  {
  }

  function Last(s: String): char
    requires s != []
  {
    s[|s| - 1]
  }

  /** A property made of a per-character and a per-neighbour condition. */
  ghost predicate Local(s: String, badChar: char -> bool, badPair: (char, char) -> bool) {
    && (forall i :: 0 <= i < |s| ==> !badChar(s[i]))
    && (forall i :: 0 < i < |s| ==> !badPair(s[i - 1], s[i]))
  }

  /** A replacement that is itself clean and cannot form a bad pair with its
      neighbours keeps a local property of the text. */
  lemma {:induction false} ReplaceAllKeepsLocal(s: String, p: Pattern, rep: String,
                                                badChar: char -> bool, badPair: (char, char) -> bool)
    requires Local(s, badChar, badPair) && Local(rep, badChar, badPair) && rep != []
    requires forall c :: !badPair(c, rep[0])
    requires forall c :: !badPair(Last(rep), c)
    ensures Local(ReplaceAll(s, p, rep), badChar, badPair)
    decreases |s|
  {
    if s != [] {
      var n := MatchLength(p, s);
      if n > 0 {
        LocalSuffix(s, n, badChar, badPair);
        ReplaceAllKeepsLocal(s[n..], p, rep, badChar, badPair);
        var tail := ReplaceAll(s[n..], p, rep);
        if tail != [] {
          assert !badPair(Last(rep), tail[0]);
        }
        LocalConcat(rep, tail, badChar, badPair);
      } else {
        LocalSuffix(s, 1, badChar, badPair);
        ReplaceAllKeepsLocal(s[1..], p, rep, badChar, badPair);
        var tail := ReplaceAll(s[1..], p, rep);
        if tail != [] {
          FirstOutput(s[1..], p, rep);
          assert !badPair(s[0], s[1]);
        }
        LocalConcat([s[0]], tail, badChar, badPair);
      }
    }
  }

  lemma LocalSuffix(s: String, n: nat, badChar: char -> bool, badPair: (char, char) -> bool)
    requires n <= |s| && Local(s, badChar, badPair)
    ensures Local(s[n..], badChar, badPair)
  {
    forall i | 0 < i < |s| - n ensures !badPair(s[n..][i - 1], s[n..][i]) {
      assert s[n..][i - 1] == s[n + i - 1] && s[n..][i] == s[n + i];
    }
  }

  lemma LocalConcat(a: String, b: String, badChar: char -> bool, badPair: (char, char) -> bool)
    requires Local(a, badChar, badPair) && Local(b, badChar, badPair)
    requires a != [] && b != [] ==> !badPair(a[|a| - 1], b[0])
    ensures Local(a + b, badChar, badPair)
  {
    var ab := a + b;
    forall i | 0 < i < |ab| ensures !badPair(ab[i - 1], ab[i]) {
      if i < |a| {
        assert ab[i - 1] == a[i - 1] && ab[i] == a[i];
      } else if i == |a| {
        assert ab[i - 1] == a[|a| - 1] && ab[i] == b[0];
      } else {
        assert ab[i - 1] == b[i - 1 - |a|] && ab[i] == b[i - |a|];
      }
    }
  }

  predicate OnlyMemberIs(s: String, k: CharClass, c: char) {
    forall i :: 0 <= i < |s| && InClass(s[i], k) ==> s[i] == c
  }

  predicate NoNeighbours(s: String, k: CharClass) {
    forall i :: 0 < i < |s| ==> !(InClass(s[i - 1], k) && InClass(s[i], k))
  }

  /** Collapsing runs of a class into one member of that class leaves no two
      neighbouring members, and every member left is that one character. */
  lemma {:induction false} CollapseRuns(s: String, k: CharClass, c: char)
    requires InClass(c, k)
    ensures OnlyMemberIs(ReplaceAll(s, Run(k), [c]), k, c)
    ensures NoNeighbours(ReplaceAll(s, Run(k), [c]), k)
    decreases |s|
  {
    if s != [] {
      var n := MatchLength(Run(k), s);
      var m := if n > 0 then n else 1;
      var head := if n > 0 then [c] else [s[0]];
      CollapseRuns(s[m..], k, c);
      var tail := ReplaceAll(s[m..], Run(k), [c]);
      if n > 0 {
        MatchStep(s, Run(k), [c]);
      } else {
        CopyStep(s, Run(k), [c]);
      }
      if tail != [] {
        FirstOutput(s[m..], Run(k), [c]);
        if n > 0 {
          assert !InClass(s[n], k);
        } else {
          assert !InClass(s[0], k);
        }
      }
      OnlyMemberConcat(head, tail, k, c);
      NoNeighboursConcat(head, tail, k);
    }
  }

  lemma OnlyMemberConcat(a: String, b: String, k: CharClass, c: char)
    requires OnlyMemberIs(a, k, c) && OnlyMemberIs(b, k, c)
    ensures OnlyMemberIs(a + b, k, c)
  {
    var ab := a + b;
    forall i | 0 <= i < |ab| && InClass(ab[i], k) ensures ab[i] == c {
      if i < |a| {
        assert ab[i] == a[i];
      } else {
        assert ab[i] == b[i - |a|];
      }
    }
  }

  lemma NoNeighboursConcat(a: String, b: String, k: CharClass)
    requires NoNeighbours(a, k) && NoNeighbours(b, k)
    requires a != [] && b != [] ==> !(InClass(a[|a| - 1], k) && InClass(b[0], k))
    ensures NoNeighbours(a + b, k)
  {
    var ab := a + b;
    forall i | 0 < i < |ab| ensures !(InClass(ab[i - 1], k) && InClass(ab[i], k)) {
      if i < |a| {
        assert ab[i - 1] == a[i - 1] && ab[i] == a[i];
      } else if i == |a| {
        assert ab[i - 1] == a[|a| - 1] && ab[i] == b[0];
      } else {
        assert ab[i - 1] == b[i - 1 - |a|] && ab[i] == b[i - |a|];
      }
    }
  }

  ghost predicate NoneBad(s: String, bad: char -> bool) {
    forall i :: 0 <= i < |s| ==> !bad(s[i])
  }

  /** Trimming only removes characters. */
  lemma TrimKeepsNoneBad(s: String, bad: char -> bool)
    requires NoneBad(s, bad)
    ensures NoneBad(Trim(s), bad)
  {
    var start := TrimStart(s);
    forall i | 0 <= i < |start| ensures !bad(start[i]) {
      assert start[i] == s[|s| - |start| + i];
    }
    var r := TrimEnd(start);
    forall i | 0 <= i < |r| ensures !bad(r[i]) {
      assert r[i] == start[i];
    }
  }

  /** When every character of a kind starts a match and the replacement has
      none of that kind, the output has none of it. */
  lemma {:induction false} ReplaceAllEliminates(s: String, p: Pattern, rep: String, bad: char -> bool)
    requires forall t: String :: t != [] && bad(t[0]) ==> MatchLength(p, t) > 0
    requires NoneBad(rep, bad)
    ensures NoneBad(ReplaceAll(s, p, rep), bad)
    decreases |s|
  {
    if s != [] {
      var n := MatchLength(p, s);
      var m := if n > 0 then n else 1;
      ReplaceAllEliminates(s[m..], p, rep, bad);
      var tail := ReplaceAll(s[m..], p, rep);
      var r := ReplaceAll(s, p, rep);
      if n == 0 {
        assert !bad(s[0]);
        assert r == [s[0]] + tail;
      } else {
        assert r == rep + tail;
      }
      forall i | 0 <= i < |r| ensures !bad(r[i]) {
        if n == 0 && i == 0 { assert r[0] == s[0]; }
        if n > 0 && i < |rep| { assert r[i] == rep[i]; }
        if n == 0 && i > 0 { assert r[i] == tail[i - 1]; }
        if n > 0 && i >= |rep| { assert r[i] == tail[i - |rep|]; }
      }
    }
  }

  /** Every piece of a split is free of the delimiter. */
  lemma {:induction false} SplitPiecesHaveNoDelimiter(s: String, p: Pattern, current: String)
    requires forall k :: 0 <= k < |current| ==> MatchLength(p, current[k..] + s) == 0
    ensures forall piece, k :: piece in SplitFrom(s, p, current) && 0 <= k < |piece| ==>
              MatchLength(p, piece[k..]) == 0
    decreases |s|
  {
    if s == [] {
      forall k | 0 <= k < |current| ensures MatchLength(p, current[k..]) == 0 {
        assert current[k..] + s == current[k..];
      }
    } else if MatchLength(p, s) > 0 {
      forall k | 0 <= k < |current| ensures MatchLength(p, current[k..]) == 0 {
        if MatchLength(p, current[k..]) > 0 {
          MatchExtends(p, current[k..], s);
        }
      }
      SplitPiecesHaveNoDelimiter(s[MatchLength(p, s)..], p, []);
    } else {
      var next := current + [s[0]];
      forall k | 0 <= k < |next| ensures MatchLength(p, next[k..] + s[1..]) == 0 {
        if k < |current| {
          assert next[k..] + s[1..] == current[k..] + s;
        } else {
          assert next[k..] + s[1..] == s;
        }
      }
      SplitPiecesHaveNoDelimiter(s[1..], p, next);
    }
  }

  // ---------------------------------------------------------------------
  // Texts that cannot overlap

  /** `a` read from offset `d` agrees with `b` wherever both have a character,
      checked from position `i` of `b` on. */
  predicate AgreeAt(a: String, b: String, d: nat, i: nat, ignoreCase: bool)
    decreases |b| - i
  {
    i >= |b| || d + i >= |a| || (SameChar(a[d + i], b[i], ignoreCase) && AgreeAt(a, b, d, i + 1, ignoreCase))
  }

  /** No occurrence of `b` can start inside an occurrence of `a`, at offset
      `d` or later. */
  predicate CannotStartInside(a: String, b: String, d: nat, ignoreCase: bool)
    decreases |a| - d
  {
    d >= |a| || (!AgreeAt(a, b, d, 0, ignoreCase) && CannotStartInside(a, b, d + 1, ignoreCase))
  }

  lemma {:induction false} NotInside(a: String, b: String, from: nat, d: nat, ignoreCase: bool)
    requires CannotStartInside(a, b, from, ignoreCase) && from <= d < |a|
    ensures !AgreeAt(a, b, d, 0, ignoreCase)
    decreases d - from
  {
    if from < d {
      NotInside(a, b, from + 1, d, ignoreCase);
    }
  }

  /** `w` and `rep` cannot overlap at all: neither can start inside the other. */
  predicate Unalignable(w: String, rep: String, ignoreCase: bool) {
    CannotStartInside(rep, w, 0, ignoreCase) && CannotStartInside(w, rep, 1, ignoreCase)
  }

  /** No character of `t` from position `d` on is `c`. */
  predicate CharAbsentFrom(t: String, c: char, d: nat, ignoreCase: bool)
    decreases |t| - d
  {
    d >= |t| || (!SameChar(t[d], c, ignoreCase) && CharAbsentFrom(t, c, d + 1, ignoreCase))
  }

  lemma {:induction false} FirstCharAbsent(a: String, b: String, d: nat, ignoreCase: bool)
    requires b != [] && CharAbsentFrom(a, b[0], d, ignoreCase)
    ensures CannotStartInside(a, b, d, ignoreCase)
    decreases |a| - d
  {
    if d < |a| {
      FirstCharAbsent(a, b, d + 1, ignoreCase);
    }
  }

  /** Texts whose first characters appear nowhere in the other cannot overlap. */
  lemma ApartByFirstChars(w: String, rep: String, ignoreCase: bool)
    requires w != [] && rep != []
    requires CharAbsentFrom(rep, w[0], 0, ignoreCase) && CharAbsentFrom(w, rep[0], 1, ignoreCase)
    ensures Unalignable(w, rep, ignoreCase)
  {
    FirstCharAbsent(rep, w, 0, ignoreCase);
    FirstCharAbsent(w, rep, 1, ignoreCase);
  }

  /** `x` lies on `t` from position `d` on. */
  predicate LiesOn(t: String, x: String, d: nat, ignoreCase: bool) {
    d + |x| <= |t| && forall i :: 0 <= i < |x| ==> SameChar(t[d + i], x[i], ignoreCase)
  }

  /** Two texts lying on the same text agree where they overlap. */
  lemma {:induction false} AgreeFromText(t: String, a: String, b: String, d: nat, k: nat, ignoreCase: bool)
    requires LiesOn(t, a, 0, ignoreCase) && LiesOn(t, b, d, ignoreCase)
    ensures AgreeAt(a, b, d, k, ignoreCase)
    decreases |b| - k
  {
    if k < |b| && d + k < |a| {
      assert SameChar(t[d + k], b[k], ignoreCase);
      assert SameChar(t[0 + (d + k)], a[d + k], ignoreCase);
      AgreeFromText(t, a, b, d, k + 1, ignoreCase);
    }
  }

  lemma LiesOnSuffix(t: String, x: String, d: nat, ignoreCase: bool)
    requires d <= |t|
    ensures LiesOn(t, x, d, ignoreCase) <==> StartsWithText(t[d..], x, ignoreCase)
  {
    if StartsWithText(t[d..], x, ignoreCase) {
      forall i | 0 <= i < |x| ensures SameChar(t[d + i], x[i], ignoreCase) {
        assert t[d..][i] == t[d + i];
      }
    }
  }

  /** `w` (compared with ASCII case folded when `ignoreCase`) occurs nowhere in `s`. */
  predicate NoText(s: String, w: String, ignoreCase: bool) {
    forall j :: 0 <= j < |s| ==> !StartsWithText(s[j..], w, ignoreCase)
  }

  /** A replacement that cannot overlap `w` brings no occurrence of `w`:
      an occurrence in the output either lies in text copied from a place
      of the input where no match started, or overlaps a replacement. */
  lemma {:induction false} ReplaceAllKeepsOut(s: String, p: Pattern, rep: String, w: String, ci: bool)
    requires w != [] && rep != [] && Unalignable(w, rep, ci)
    requires forall j :: 0 <= j < |s| && MatchLength(p, s[j..]) == 0 ==> !StartsWithText(s[j..], w, ci)
    ensures NoText(ReplaceAll(s, p, rep), w, ci)
    decreases |s|
  {
    if s != [] {
      var m := MatchLength(p, s);
      var step := if m > 0 then m else 1;
      UnmatchedInSuffix(s, p, w, ci, step);
      ReplaceAllKeepsOut(s[step..], p, rep, w, ci);
      if m > 0 {
        KeptOutAfterMatch(s, p, rep, w, ci);
      } else {
        KeptOutAfterCopy(s, p, rep, w, ci);
      }
    }
  }

  lemma UnmatchedInSuffix(s: String, p: Pattern, w: String, ci: bool, n: nat)
    requires n <= |s|
    requires forall j :: 0 <= j < |s| && MatchLength(p, s[j..]) == 0 ==> !StartsWithText(s[j..], w, ci)
    ensures forall j :: 0 <= j < |s[n..]| && MatchLength(p, s[n..][j..]) == 0 ==> !StartsWithText(s[n..][j..], w, ci)
  {
    var u := s[n..];
    forall j | 0 <= j < |u| && MatchLength(p, u[j..]) == 0 ensures !StartsWithText(u[j..], w, ci) {
      assert u[j..] == s[n + j..];
    }
  }

  /** The step of ReplaceAllKeepsOut where a replacement is emitted. */
  lemma KeptOutAfterMatch(s: String, p: Pattern, rep: String, w: String, ci: bool)
    requires Unalignable(w, rep, ci) && MatchLength(p, s) > 0
    requires NoText(ReplaceAll(s[MatchLength(p, s)..], p, rep), w, ci)
    ensures NoText(ReplaceAll(s, p, rep), w, ci)
  {
    var rest := ReplaceAll(s[MatchLength(p, s)..], p, rep);
    MatchStep(s, p, rep);
    forall k | 0 <= k < |rep| ensures !LiesOn(rep + rest, w, k, ci) {
      NotAfterReplacement(rep, rest, w, k, ci);
    }
    NoTextConcat(rep, rest, w, ci);
  }

  /** The step of ReplaceAllKeepsOut where a character is copied. */
  lemma KeptOutAfterCopy(s: String, p: Pattern, rep: String, w: String, ci: bool)
    requires w != [] && rep != [] && Unalignable(w, rep, ci)
    requires s != [] && MatchLength(p, s) == 0
    requires forall j :: 0 <= j < |s| && MatchLength(p, s[j..]) == 0 ==> !StartsWithText(s[j..], w, ci)
    requires NoText(ReplaceAll(s[1..], p, rep), w, ci)
    ensures NoText(ReplaceAll(s, p, rep), w, ci)
  {
    assert s[0..] == s;
    CopyStep(s, p, rep);
    NotAfterCopy(s, p, rep, w, ci);
    NoTextConcat([s[0]], ReplaceAll(s[1..], p, rep), w, ci);
  }

  lemma NoTextConcat(head: String, rest: String, w: String, ci: bool)
    requires NoText(rest, w, ci)
    requires forall k :: 0 <= k < |head| ==> !LiesOn(head + rest, w, k, ci)
    ensures NoText(head + rest, w, ci)
  {
    var out := head + rest;
    forall k | 0 <= k < |out| ensures !StartsWithText(out[k..], w, ci) {
      if k >= |head| {
        assert out[k..] == rest[k - |head|..];
      } else {
        LiesOnSuffix(out, w, k, ci);
      }
    }
  }

  lemma NotAfterReplacement(rep: String, rest: String, w: String, k: nat, ci: bool)
    requires Unalignable(w, rep, ci) && k < |rep|
    ensures !LiesOn(rep + rest, w, k, ci)
  {
    var t := rep + rest;
    if LiesOn(t, w, k, ci) {
      assert LiesOn(t, rep, 0, ci) by {
        forall i | 0 <= i < |rep| ensures SameChar(t[0 + i], rep[i], ci) {
          assert t[i] == rep[i];
        }
      }
      AgreeFromText(t, rep, w, k, 0, ci);
      NotInside(rep, w, 0, k, ci);
    }
  }

  /** An occurrence cannot start at a copied character unless it started
      there in the input. */
  lemma NotAfterCopy(s: String, p: Pattern, rep: String, w: String, ci: bool)
    requires w != [] && rep != [] && Unalignable(w, rep, ci)
    requires s != [] && MatchLength(p, s) == 0 && !StartsWithText(s, w, ci)
    ensures !LiesOn([s[0]] + ReplaceAll(s[1..], p, rep), w, 0, ci)
  {
    var u := s[1..];
    var bound := if |w| - 1 <= |u| then |w| - 1 else |u|;
    var j := FirstMatch(u, p, 0, bound);
    if j == bound {
      CopiedWithoutMatch(s, p, rep, w, ci, bound);
    } else {
      CopiedBeforeMatch(s, p, rep, w, ci, j);
    }
  }

  lemma CopiedWithoutMatch(s: String, p: Pattern, rep: String, w: String, ci: bool, bound: nat)
    requires s != [] && !StartsWithText(s, w, ci)
    requires bound == if |w| - 1 <= |s| - 1 then |w| - 1 else |s| - 1
    requires forall i :: 0 <= i < bound ==> MatchLength(p, s[1..][i..]) == 0
    ensures !LiesOn([s[0]] + ReplaceAll(s[1..], p, rep), w, 0, ci)
  {
    var out := [s[0]] + ReplaceAll(s[1..], p, rep);
    CopiedOutput(s, rep, p, bound);
    if LiesOn(out, w, 0, ci) {
      forall i | 0 <= i < |w| ensures SameChar(s[i], w[i], ci) {
        assert out[..bound + 1][i] == s[..bound + 1][i];
      }
    }
  }

  lemma CopiedBeforeMatch(s: String, p: Pattern, rep: String, w: String, ci: bool, j: nat)
    requires rep != [] && Unalignable(w, rep, ci)
    requires s != [] && j < |w| - 1 && j < |s| - 1
    requires forall i :: 0 <= i < j ==> MatchLength(p, s[1..][i..]) == 0
    requires MatchLength(p, s[1..][j..]) > 0
    ensures !LiesOn([s[0]] + ReplaceAll(s[1..], p, rep), w, 0, ci)
  {
    var u := s[1..];
    var out := [s[0]] + ReplaceAll(u, p, rep);
    var v := u[j..];
    var rest := ReplaceAll(v[MatchLength(p, v)..], p, rep);
    KeptPrefix(u, p, rep, j);
    MatchStep(v, p, rep);
    assert out == ([s[0]] + u[..j]) + (rep + rest);
    NotAcrossReplacement([s[0]] + u[..j], rep, rest, w, ci);
  }

  /** An occurrence of `w` at the start cannot reach into a replacement that
      follows a shorter head. */
  lemma NotAcrossReplacement(head: String, rep: String, rest: String, w: String, ci: bool)
    requires Unalignable(w, rep, ci) && 1 <= |head| < |w| && rep != []
    ensures !LiesOn(head + (rep + rest), w, 0, ci)
  {
    var out := head + (rep + rest);
    if LiesOn(out, w, 0, ci) {
      assert LiesOn(out, rep, |head|, ci) by {
        forall i | 0 <= i < |rep| ensures SameChar(out[|head| + i], rep[i], ci) {
          assert out[|head| + i] == (rep + rest)[i];
        }
      }
      AgreeFromText(out, w, rep, |head|, 0, ci);
      NotInside(w, rep, 1, |head|, ci);
    }
  }

  /** The copied character and the unmatched characters after it come out
      unchanged, in front of the rest of the scan. */
  lemma CopiedOutput(s: String, rep: String, p: Pattern, bound: nat)
    requires s != [] && bound <= |s| - 1
    requires forall i :: 0 <= i < bound ==> MatchLength(p, s[1..][i..]) == 0
    ensures [s[0]] + ReplaceAll(s[1..], p, rep) == s[..bound + 1] + ReplaceAll(s[bound + 1..], p, rep)
  {
    var u := s[1..];
    KeptPrefix(u, p, rep, bound);
    var r := ReplaceAll(u[bound..], p, rep);
    assert u[bound..] == s[bound + 1..];
    assert [s[0]] + (u[..bound] + r) == ([s[0]] + u[..bound]) + r;
    assert [s[0]] + u[..bound] == s[..bound + 1];
  }

  /** Replacing a literal that cannot overlap its replacement leaves no
      occurrence of it. */
  lemma ReplaceAllRemoves(s: String, w: String, ci: bool, rep: String)
    requires w != [] && rep != [] && Unalignable(w, rep, ci)
    ensures NoText(ReplaceAll(s, Literal(w, ci), rep), w, ci)
  {
    ReplaceAllKeepsOut(s, Literal(w, ci), rep, w, ci);
  }

  /** A replacement that cannot overlap `w` keeps a text free of `w`. */
  lemma ReplaceAllKeepsNoText(s: String, p: Pattern, rep: String, w: String, ci: bool)
    requires w != [] && rep != [] && Unalignable(w, rep, ci) && NoText(s, w, ci)
    ensures NoText(ReplaceAll(s, p, rep), w, ci)
  {
    ReplaceAllKeepsOut(s, p, rep, w, ci);
  }

  /** Every match of `p` in `s` is the text `rep` itself. */
  predicate MatchesAre(s: String, p: Pattern, rep: String) {
    forall j :: 0 <= j < |s| && MatchLength(p, s[j..]) > 0 ==> s[j..][..MatchLength(p, s[j..])] == rep
  }

  lemma MatchesAreSuffix(s: String, p: Pattern, rep: String, n: nat)
    requires n <= |s| && MatchesAre(s, p, rep)
    ensures MatchesAre(s[n..], p, rep)
  {
    var u := s[n..];
    forall j | 0 <= j < |u| && MatchLength(p, u[j..]) > 0 ensures u[j..][..MatchLength(p, u[j..])] == rep {
      assert u[j..] == s[n + j..];
    }
  }

  /** Where every match is already the replacement text, replacing changes
      nothing. */
  lemma {:induction false} ReplaceAllWithItself(s: String, p: Pattern, rep: String)
    requires MatchesAre(s, p, rep)
    ensures ReplaceAll(s, p, rep) == s
    decreases |s|
  {
    if s != [] {
      var m := MatchLength(p, s);
      var step := if m > 0 then m else 1;
      MatchesAreSuffix(s, p, rep, step);
      ReplaceAllWithItself(s[step..], p, rep);
      SelfStep(s, p, rep);
    }
  }

  /** One step of the scan reproduces the text it passes over. */
  lemma SelfStep(s: String, p: Pattern, rep: String)
    requires s != [] && MatchesAre(s, p, rep)
    requires var m := MatchLength(p, s); var step := if m > 0 then m else 1;
      ReplaceAll(s[step..], p, rep) == s[step..]
    ensures ReplaceAll(s, p, rep) == s
  {
    var m := MatchLength(p, s);
    if m > 0 {
      FirstMatchIsRep(s, p, rep);
      MatchStep(s, p, rep);
      Rejoin(s, m);
    } else {
      CopyStep(s, p, rep);
      Rejoin(s, 1);
    }
  }

  lemma FirstMatchIsRep(s: String, p: Pattern, rep: String)
    requires s != [] && MatchesAre(s, p, rep) && MatchLength(p, s) > 0
    ensures s[..MatchLength(p, s)] == rep
  {
    assert s[0..] == s;
  }

  lemma Rejoin(s: String, n: nat)
    requires n <= |s|
    ensures s[..n] + s[n..] == s
  {
  }

  lemma WeaveCons(piece: String, delimiter: String, pieces: seq<String>, delimiters: seq<String>)
    requires |pieces| == |delimiters| + 1
    ensures Weave([piece] + pieces, [delimiter] + delimiters) == piece + delimiter + Weave(pieces, delimiters)
  {
    assert ([piece] + pieces)[1..] == pieces;
    assert ([delimiter] + delimiters)[1..] == delimiters;
  }

  lemma RejoinAfter(current: String, s: String, n: nat)
    requires n <= |s|
    ensures current + s[..n] + ([] + s[n..]) == current + s
  {
    assert [] + s[n..] == s[n..];
    Rejoin(s, n);
  }

  /** Collapsing runs is idempotent: text whose runs are already single
      members of the class, all equal to `c`, is left as it is. */
  lemma CollapsedIsFixed(s: String, k: CharClass, c: char)
    requires InClass(c, k) && OnlyMemberIs(s, k, c) && NoNeighbours(s, k)
    ensures ReplaceAll(s, Run(k), [c]) == s
  {
    forall j | 0 <= j < |s| && MatchLength(Run(k), s[j..]) > 0
      ensures s[j..][..MatchLength(Run(k), s[j..])] == [c]
    {
      var t := s[j..];
      assert t[0] == s[j];
      if j + 1 < |s| {
        assert t[1..][0] == s[j + 1];
      }
      assert RunLength(t, k) == 1;
    }
    ReplaceAllWithItself(s, Run(k), [c]);
  }

  // ---------------------------------------------------------------------
  // Split undone

  /** The matched delimiters, in the order the split scan finds them. */
  function Delimiters(s: String, p: Pattern): seq<String>
    decreases |s|
  {
    if s == [] then []
    else if MatchLength(p, s) > 0 then [s[..MatchLength(p, s)]] + Delimiters(s[MatchLength(p, s)..], p)
    else Delimiters(s[1..], p)
  }

  /** The pieces with the delimiters put back between them. */
  function Weave(pieces: seq<String>, delimiters: seq<String>): String
    requires |pieces| == |delimiters| + 1
  {
    if delimiters == [] then pieces[0]
    else pieces[0] + delimiters[0] + Weave(pieces[1..], delimiters[1..])
  }

  /** Putting the delimiters back between the pieces gives the text again. */
  lemma {:induction false} SplitFromWeave(s: String, p: Pattern, current: String)
    ensures |SplitFrom(s, p, current)| == |Delimiters(s, p)| + 1
    ensures Weave(SplitFrom(s, p, current), Delimiters(s, p)) == current + s
    decreases |s|
  {
    if s == [] {
    } else if MatchLength(p, s) > 0 {
      SplitFromWeave(s[MatchLength(p, s)..], p, []);
      WeaveAfterMatch(s, p, current);
    } else {
      SplitFromWeave(s[1..], p, current + [s[0]]);
      WeaveAfterCopy(s, p, current);
    }
  }

  /** The step of SplitFromWeave where the scan starts with a delimiter. */
  lemma WeaveAfterMatch(s: String, p: Pattern, current: String)
    requires MatchLength(p, s) > 0
    requires var u := s[MatchLength(p, s)..];
      |SplitFrom(u, p, [])| == |Delimiters(u, p)| + 1 && Weave(SplitFrom(u, p, []), Delimiters(u, p)) == [] + u
    ensures |SplitFrom(s, p, current)| == |Delimiters(s, p)| + 1
    ensures Weave(SplitFrom(s, p, current), Delimiters(s, p)) == current + s
  {
    var m := MatchLength(p, s);
    WeaveCons(current, s[..m], SplitFrom(s[m..], p, []), Delimiters(s[m..], p));
    RejoinAfter(current, s, m);
  }

  /** The step of SplitFromWeave where the scan copies a character. */
  lemma WeaveAfterCopy(s: String, p: Pattern, current: String)
    requires s != [] && MatchLength(p, s) == 0
    requires var c := current + [s[0]];
      |SplitFrom(s[1..], p, c)| == |Delimiters(s[1..], p)| + 1 && Weave(SplitFrom(s[1..], p, c), Delimiters(s[1..], p)) == c + s[1..]
    ensures |SplitFrom(s, p, current)| == |Delimiters(s, p)| + 1
    ensures Weave(SplitFrom(s, p, current), Delimiters(s, p)) == current + s
  {
    assert SplitFrom(s, p, current) == SplitFrom(s[1..], p, current + [s[0]]);
    assert Delimiters(s, p) == Delimiters(s[1..], p);
    MoveFirst(current, s);
  }

  lemma MoveFirst(current: String, s: String)
    requires s != []
    ensures (current + [s[0]]) + s[1..] == current + s
  {
    assert s == [s[0]] + s[1..];
  }

  /** Split drops only empty pieces from the end of the scan's pieces, and
      the scan's pieces with the delimiters between them are the text. */
  lemma SplitUndone(s: String, p: Pattern)
    ensures |SplitFrom(s, p, [])| == |Delimiters(s, p)| + 1
    ensures Weave(SplitFrom(s, p, []), Delimiters(s, p)) == s
    ensures |Split(s, p)| <= |SplitFrom(s, p, [])|
    ensures Split(s, p) == SplitFrom(s, p, [])[..|Split(s, p)|]
    ensures forall i :: |Split(s, p)| <= i < |SplitFrom(s, p, [])| ==> SplitFrom(s, p, [])[i] == []
  {
    SplitFromWeave(s, p, []);
    assert [] + s == s;
    var pieces := SplitFrom(s, p, []);
    if |pieces| == 1 {
      assert pieces[..1] == pieces;
    }
  }

  /** Where the delimiter matches nowhere, the scan keeps the whole text. */
  lemma {:induction false} SplitFromWithoutMatch(s: String, p: Pattern, current: String)
    requires forall j :: 0 <= j < |s| ==> MatchLength(p, s[j..]) == 0
    ensures SplitFrom(s, p, current) == [current + s]
    decreases |s|
  {
    if s != [] {
      assert s[0..] == s;
      forall j | 0 <= j < |s| - 1 ensures MatchLength(p, s[1..][j..]) == 0 {
        assert s[1..][j..] == s[j + 1..];
      }
      SplitFromWithoutMatch(s[1..], p, current + [s[0]]);
      assert (current + [s[0]]) + s[1..] == current + s;
    } else {
      assert current + s == current;
    }
  }

  /** Without a match, split gives the text itself as its only piece. */
  lemma SplitWithoutMatch(s: String, p: Pattern)
    requires forall j :: 0 <= j < |s| ==> MatchLength(p, s[j..]) == 0
    ensures Split(s, p) == [s]
  {
    SplitFromWithoutMatch(s, p, []);
    assert [] + s == s;
  }
}
