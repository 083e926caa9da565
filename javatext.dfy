/** The parts of java.lang.String that the extractor relies on, stated over
    sequences of characters: indexOf, lastIndexOf, contains, substring (with
    the exception it throws on bad bounds), trim and String.join. */
module JavaText {

  type String = seq<char>

  /** The runtime exceptions the extractor can raise; the controller turns
      each of them into one log entry. */
  datatype Failure =
    | NullInput                                          // IllegalArgumentException("Input is null")
    | NotAnAlarmFax                                      // IllegalStateException("Seems not to be an alarm fax")
    | IndexOutOfBounds(begin: int, end: int, length: int) // StringIndexOutOfBoundsException from substring

  datatype Result<T> = Ok(value: T) | Err(failure: Failure) {
    predicate IsFailure() { Err? }
    function PropagateFailure<U>(): Result<U> requires Err? { Err(failure) }
    function Extract(): T requires Ok? { value }
  }

  datatype Option<T> = None | Some(value: T)

  /** Java's regex class \s: space, tab, line feed, vertical tab, form feed, carriage return. */
  predicate IsRegexSpace(c: char) {
    c == ' ' || c == '\t' || c == '\n' || c == '\U{B}' || c == '\U{C}' || c == '\r'
  }

  /** Java's regex class \d (without UNICODE_CHARACTER_CLASS). */
  predicate IsDigit(c: char) { '0' <= c <= '9' }

  /** Java's regex class \w (without UNICODE_CHARACTER_CLASS). */
  predicate IsWordChar(c: char) {
    'a' <= c <= 'z' || 'A' <= c <= 'Z' || IsDigit(c) || c == '_'
  }

  /** String.trim() removes every leading and trailing character up to U+0020. */
  predicate IsTrimmable(c: char) { c <= ' ' }

  predicate IsTrimmed(s: String) {
    s == [] || (!IsTrimmable(s[0]) && !IsTrimmable(s[|s| - 1]))
  }

  predicate OccursAt(s: String, pat: String, k: int) {
    0 <= k && k + |pat| <= |s| && s[k..k + |pat|] == pat
  }

  /** String.indexOf(pat, from): the first occurrence at or after `from`, or -1. */
  function IndexFrom(s: String, pat: String, from: nat): (r: int)
    decreases |s| - from
    ensures r == -1 || (from <= r && OccursAt(s, pat, r))
    ensures forall k :: from <= k && (r == -1 || k < r) ==> !OccursAt(s, pat, k)
  {
    if from + |pat| > |s| then -1
    else if s[from..from + |pat|] == pat then from
    else IndexFrom(s, pat, from + 1)
  }

  /** String.indexOf(pat): the first occurrence of `pat` in `s`, or -1. */
  function IndexOf(s: String, pat: String): (r: int)
    ensures r == -1 || OccursAt(s, pat, r)
    ensures forall k :: 0 <= k && (r == -1 || k < r) ==> !OccursAt(s, pat, k)
  {
    IndexFrom(s, pat, 0)
  }

  predicate Contains(s: String, pat: String) {
    IndexOf(s, pat) != -1
  }

  /** String.lastIndexOf(c): the last position holding `c`, or -1. */
  function LastIndexOf(s: String, c: char): (r: int)
    ensures -1 <= r < |s|
    ensures r >= 0 ==> s[r] == c
    ensures forall k :: r < k < |s| ==> s[k] != c
  {
    if s == [] then -1
    else if s[|s| - 1] == c then |s| - 1
    else LastIndexOf(s[..|s| - 1], c)
  }

  /** String.substring(begin, end), which throws unless 0 <= begin <= end <= length. */
  function Substring(s: String, begin: int, end: int): (r: Result<String>)
    ensures r.Ok? <==> 0 <= begin <= end <= |s|
    ensures r.Ok? ==> |r.value| == end - begin && forall k :: 0 <= k < |r.value| ==> r.value[k] == s[begin + k]
  {
    if 0 <= begin <= end <= |s| then Ok(s[begin..end])
    else Err(IndexOutOfBounds(begin, end, |s|))
  }

  function TrimStart(s: String): (r: String)
    ensures |r| <= |s| && r == s[|s| - |r|..]
    ensures forall k :: 0 <= k < |s| - |r| ==> IsTrimmable(s[k])
    ensures r == [] || !IsTrimmable(r[0])
  {
    if s != [] && IsTrimmable(s[0]) then TrimStart(s[1..]) else s
  }

  function TrimEnd(s: String): (r: String)
    ensures |r| <= |s| && r == s[..|r|]
    ensures forall k :: |r| <= k < |s| ==> IsTrimmable(s[k])
    ensures r == [] || !IsTrimmable(r[|r| - 1])
  {
    if s != [] && IsTrimmable(s[|s| - 1]) then TrimEnd(s[..|s| - 1]) else s
  }

  /** String.trim(). */
  function Trim(s: String): (r: String)
    ensures IsTrimmed(r)
  {
    TrimEnd(TrimStart(s))
  }

  /** String.join(sep, parts). */
  function Join(parts: seq<String>, sep: String): String
  {
    if parts == [] then []
    else if |parts| == 1 then parts[0]
    else parts[0] + sep + Join(parts[1..], sep)
  }

  /** String.length(): Java counts UTF-16 code units, so a character outside
      the Basic Multilingual Plane counts twice. */
  function Utf16Length(s: String): (n: nat)
    ensures |s| <= n <= 2 * |s|
  {
    if s == [] then 0
    else (if s[0] as int >= 0x1_0000 then 2 else 1) + Utf16Length(s[1..])
  }

  /** The two counts agree exactly when every character lies in the Basic
      Multilingual Plane. */
  lemma {:induction false} Utf16LengthOfBmp(s: String)
    ensures Utf16Length(s) == |s| <==> forall i :: 0 <= i < |s| ==> (s[i] as int) < 0x1_0000
  {
    if s != [] {
      Utf16LengthOfBmp(s[1..]);
      if (s[0] as int) < 0x1_0000 {
        forall i | 0 < i < |s| ensures s[i] == s[1..][i - 1] { }
      }
    }
  }

  /** An occurrence in a slice is an occurrence in the whole text. */
  lemma SliceOccurrence(x: String, a: nat, b: nat, p: String, k: int)
    requires a <= b <= |x| && OccursAt(x[a..b], p, k)
    ensures OccursAt(x, p, a + k)
  {
    var w := x[a..b][k..k + |p|];
    forall i | 0 <= i < |p| ensures w[i] == x[a + k + i] {
      assert w[i] == x[a..b][k + i];
    }
    assert w == x[a + k..a + k + |p|];
  }

  /** Every character of `t` is one trim() removes. */
  predicate AllTrimmable(t: String) {
    forall k :: 0 <= k < |t| ==> IsTrimmable(t[k])
  }

  /** trim() returns the slice of its argument left after removing every
      character up to U+0020 from both ends. */
  lemma TrimIsSlice(x: String) returns (a: nat, b: nat)
    ensures a <= b <= |x| && Trim(x) == x[a..b]
    ensures AllTrimmable(x[..a]) && AllTrimmable(x[b..])
    ensures a < b ==> !IsTrimmable(x[a]) && !IsTrimmable(x[b - 1])
  {
    var m;
    a, m := TrimParts(x);
    b := a + m;
    SlicesOfSuffix(x, a, m);
    EqualSlices(Trim(x), x, a, b);
  }

  /** The same, with the right end counted inside the suffix left by trimming
      the start. */
  lemma TrimParts(x: String) returns (a: nat, m: nat)
    ensures a + m <= |x| && Trim(x) == x[a..][..m]
    ensures AllTrimmable(x[..a]) && AllTrimmable(x[a..][m..])
    ensures a < |x| ==> !IsTrimmable(x[a])
    ensures m > 0 ==> !IsTrimmable(x[a..][m - 1])
  {
    a := TrimStartIsSuffix(x);
    m := TrimEndIsPrefix(x[a..]);
  }

  lemma TrimStartIsSuffix(x: String) returns (a: nat)
    ensures a <= |x| && TrimStart(x) == x[a..]
    ensures AllTrimmable(x[..a])
    ensures a < |x| ==> !IsTrimmable(x[a])
  {
    a := |x| - |TrimStart(x)|;
    assert AllTrimmable(x[..a]) by {
      forall k | 0 <= k < a ensures IsTrimmable(x[..a][k]) {
        assert x[..a][k] == x[k];
      }
    }
  }

  lemma TrimEndIsPrefix(y: String) returns (m: nat)
    ensures m <= |y| && TrimEnd(y) == y[..m]
    ensures AllTrimmable(y[m..])
    ensures m > 0 ==> !IsTrimmable(y[m - 1])
  {
    m := |TrimEnd(y)|;
    assert AllTrimmable(y[m..]) by {
      forall k | 0 <= k < |y| - m ensures IsTrimmable(y[m..][k]) {
        assert y[m..][k] == y[m + k];
      }
    }
  }

  /** A text equal to a prefix of a suffix is the slice between them. */
  lemma EqualSlices(t: String, x: String, a: nat, b: nat)
    requires a <= b <= |x| && t == x[a..][..b - a]
    ensures t == x[a..b]
  {
    SlicesOfSuffix(x, a, b - a);
  }

  /** Slices of a suffix, in positions of the whole text. */
  lemma SlicesOfSuffix(x: String, a: nat, m: nat)
    requires a + m <= |x|
    ensures x[a..][..m] == x[a..a + m] && x[a..][m..] == x[a + m..]
    ensures m > 0 ==> x[a..][0] == x[a] && x[a..][m - 1] == x[a + m - 1]
  {
  }

  /** An occurrence inside a prefix is an occurrence in the whole text. */
  lemma PrefixOccurrence(s: String, p: String, n: nat)
    requires n <= |s|
    ensures forall k :: OccursAt(s[..n], p, k) ==> OccursAt(s, p, k) && k + |p| <= n
  {
    forall k | OccursAt(s[..n], p, k) ensures OccursAt(s, p, k) && k + |p| <= n {
      SliceOccurrence(s, 0, n, p, k);
    }
  }

  /** An occurrence inside a suffix is an occurrence in the whole text, shifted. */
  lemma SuffixOccurrence(s: String, w: String, n: nat)
    requires n <= |s|
    ensures forall k :: OccursAt(s[n..], w, k) ==> OccursAt(s, w, n + k)
  {
    forall k | OccursAt(s[n..], w, k) ensures OccursAt(s, w, n + k) {
      assert s[n..][k..k + |w|] == s[n + k..n + k + |w|];
    }
  }

  /** Two occurrences side by side are an occurrence of the joined text. */
  lemma OccursConcat(s: String, a: String, b: String, k: nat)
    requires OccursAt(s, a, k) && OccursAt(s, b, k + |a|)
    ensures OccursAt(s, a + b, k)
  {
    assert s[k..k + |a| + |b|] == s[k..k + |a|] + s[k + |a|..k + |a| + |b|];
  }

  /** Texts that agree on their first `n` characters share the occurrences
      that start at 0 and fit in them. */
  lemma SharedPrefixOccurrence(x: String, y: String, w: String, n: nat)
    requires n <= |x| && n <= |y| && x[..n] == y[..n]
    requires |w| <= n && OccursAt(x, w, 0)
    ensures OccursAt(y, w, 0)
  {
    assert x[..|w|] == x[..n][..|w|];
    assert y[..|w|] == y[..n][..|w|];
  }

  /** An occurrence in the trimmed text is an occurrence in the text. */
  lemma TrimOccurrence(x: String, p: String, k: nat) returns (j: nat)
    requires OccursAt(Trim(x), p, k)
    ensures OccursAt(x, p, j)
  {
    var start := TrimStart(x);
    var e := TrimEnd(start);
    assert e == Trim(x);
    PrefixOccurrence(start, p, |e|);
    j := |x| - |start| + k;
    SuffixOccurrence(x, p, |x| - |start|);
  }
}
