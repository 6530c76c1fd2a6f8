/** The ordinal string operations the command loop and the date-range parser
    rely on: prefix test, trimming of parentheses, and splitting on a
    separator. */
module Text {
  import opened Results

  predicate StartsWith(s: string, prefix: string) {
    |prefix| <= |s| && s[..|prefix|] == prefix
  }

  /** `sep` occurs in `s` at position `i`. */
  predicate OccursAt(s: string, sep: string, i: int) {
    0 <= i && i + |sep| <= |s| && s[i..i + |sep|] == sep
  }

  predicate Contains(s: string, sep: string) {
    exists i :: 0 <= i <= |s| - |sep| && OccursAt(s, sep, i)
  }

  /** The first occurrence of `sep` in `s` at or after `from`. */
  function IndexOfFrom(s: string, sep: string, from: nat): (r: Option<nat>)
    requires |sep| > 0 && from <= |s|
    ensures r.Some? ==> from <= r.value && OccursAt(s, sep, r.value)
    ensures r.Some? ==> forall j :: from <= j < r.value ==> !OccursAt(s, sep, j)
    ensures r.None? ==> forall j :: from <= j ==> !OccursAt(s, sep, j)
    decreases |s| - from
  {
    if from + |sep| > |s| then None
    else if s[from..from + |sep|] == sep then Some(from)
    else IndexOfFrom(s, sep, from + 1)
  }

  /** Concatenates `parts` with `sep` between neighbours. */
  function Join(parts: seq<string>, sep: string): string
    requires |parts| >= 1
  {
    if |parts| == 1 then parts[0] else parts[0] + sep + Join(parts[1..], sep)
  }

  /** A join begins with its first part. */
  lemma JoinStartsWithHead(parts: seq<string>, sep: string)
    requires |parts| >= 1
    ensures StartsWith(Join(parts, sep), parts[0])
  {
    if |parts| > 1 {
      var rest := sep + Join(parts[1..], sep);
      assert Join(parts, sep) == parts[0] + rest;
      assert (parts[0] + rest)[..|parts[0]|] == parts[0];
    }
  }

  /** A join of at least three parts is the first three joined, either
      alone or followed by the separator and more. */
  lemma JoinAfterThree(parts: seq<string>, sep: string)
    requires |parts| >= 3
    ensures var three := parts[0] + sep + parts[1] + sep + parts[2];
            Join(parts, sep) == three || StartsWith(Join(parts, sep), three + sep)
  {
    var p0, p1, p2 := parts[0], parts[1], parts[2];
    assert parts[1..][0] == p1 && parts[1..][1..] == parts[2..];
    var j2 := Join(parts[2..], sep);
    assert Join(parts[1..], sep) == p1 + sep + j2;
    assert Join(parts, sep) == p0 + sep + (p1 + sep + j2);
    assert p0 + sep + (p1 + sep + j2) == (p0 + sep + p1 + sep) + j2;
    if |parts| == 3 {
      assert j2 == p2;
    } else {
      assert parts[2..][0] == p2;
      var j3 := Join(parts[3..], sep);
      assert parts[2..][1..] == parts[3..];
      assert j2 == p2 + sep + j3;
      assert (p0 + sep + p1 + sep) + (p2 + sep + j3) == (p0 + sep + p1 + sep + p2 + sep) + j3;
      StartsWithConcat(p0 + sep + p1 + sep + p2 + sep, j3);
    }
  }

  /** A text begins with any prefix of it taken as a concatenation. */
  lemma StartsWithConcat(a: string, b: string)
    ensures StartsWith(a + b, a)
  {
    assert (a + b)[..|a|] == a;
  }

  lemma PrefixHasNoEarlierOccurrence(s: string, sep: string, i: nat)
    requires |sep| > 0 && i <= |s|
    requires forall j :: 0 <= j < i ==> !OccursAt(s, sep, j)
    ensures !Contains(s[..i], sep)
  {
    forall j | 0 <= j && j + |sep| <= i
      ensures !OccursAt(s[..i], sep, j)
    {
      assert s[..i][j..j + |sep|] == s[j..j + |sep|];
      assert OccursAt(s[..i], sep, j) == OccursAt(s, sep, j);
      assert j < i;
    }
  }

  /** Splits `s` at every occurrence of `sep`, scanning left to right, keeping
      empty pieces: the behaviour of .NET `String.Split` with one separator. */
  function Split(s: string, sep: string): (parts: seq<string>)
    requires |sep| > 0
    ensures |parts| >= 1
    decreases |s|
  {
    match IndexOfFrom(s, sep, 0)
    case None => [s]
    case Some(i) => [s[..i]] + Split(s[i + |sep|..], sep)
  }

  /** Joining the pieces with the separator gives back the text, and no piece
      contains the separator. */
  lemma {:induction false} SplitJoins(s: string, sep: string)
    requires |sep| > 0
    ensures Join(Split(s, sep), sep) == s
    ensures forall k :: 0 <= k < |Split(s, sep)| ==> !Contains(Split(s, sep)[k], sep)
    decreases |s|
  {
    var found := IndexOfFrom(s, sep, 0);
    if found.None? {
      assert Split(s, sep) == [s];
      PrefixHasNoEarlierOccurrence(s, sep, |s|);
      assert s[..|s|] == s;
    } else {
      var i := found.value;
      var tail := s[i + |sep|..];
      var rest := Split(tail, sep);
      var parts := [s[..i]] + rest;
      assert Split(s, sep) == parts;
      SplitJoins(tail, sep);
      PrefixHasNoEarlierOccurrence(s, sep, i);
      assert parts[1..] == rest;
      assert Join(parts, sep) == s[..i] + sep + tail;
      assert s[i..i + |sep|] == sep;
      assert s == s[..i] + s[i..i + |sep|] + tail;
    }
  }

  /** When the first occurrence of `sep` is the one right after `x`, the first
      piece is `x` and the rest is split as `y` on its own. */
  lemma SplitFirst(x: string, sep: string, y: string)
    requires |sep| > 0
    requires forall j :: 0 <= j < |x| ==> !OccursAt(x + sep + y, sep, j)
    ensures Split(x + sep + y, sep) == [x] + Split(y, sep)
  {
    var s := x + sep + y;
    assert s[|x|..|x| + |sep|] == sep;
    assert OccursAt(s, sep, |x|);
    var r := IndexOfFrom(s, sep, 0);
    assert r == Some(|x|);
    assert s[..|x|] == x;
    assert s[|x| + |sep|..] == y;
  }

  lemma SplitWhole(s: string, sep: string)
    requires |sep| > 0
    requires !Contains(s, sep)
    ensures Split(s, sep) == [s]
  {
  }

  /** A one-character separator `c` that `x` does not contain cannot occur
      before the separator placed right after `x`. */
  lemma NoEarlierChar(x: string, c: char, y: string)
    requires forall i :: 0 <= i < |x| ==> x[i] != c
    ensures forall j :: 0 <= j < |x| ==> !OccursAt(x + [c] + y, [c], j)
  {
    var s := x + [c] + y;
    forall j | 0 <= j < |x|
      ensures !OccursAt(s, [c], j)
    {
      assert s[j..j + 1][0] == x[j];
    }
  }

  /** `", "` cannot straddle the end of `x` when `x` is followed by `", "`. */
  lemma NoEarlierCommaSpace(x: string, y: string)
    requires !Contains(x, ", ")
    ensures forall j :: 0 <= j < |x| ==> !OccursAt(x + ", " + y, ", ", j)
  {
    var s := x + ", " + y;
    forall j | 0 <= j < |x|
      ensures !OccursAt(s, ", ", j)
    {
      if j + 2 <= |x| {
        assert s[j..j + 2] == x[j..j + 2];
        assert !OccursAt(x, ", ", j);
      } else {
        assert j + 1 == |x| && s[|x|] == ',';
        assert s[j..j + 2][1] == s[j + 1];
      }
    }
  }

  // ---------------------------------------------------------------------------
  // Trimming parentheses: .NET `Trim('(', ')')`

  predicate IsParen(c: char) {
    c == '(' || c == ')'
  }

  /** The first index at or after `i` that does not hold a parenthesis. */
  function SkipParens(s: string, i: nat): (n: nat)
    requires i <= |s|
    ensures i <= n <= |s|
    ensures forall k :: i <= k < n ==> IsParen(s[k])
    ensures n < |s| ==> !IsParen(s[n])
    decreases |s| - i
  {
    if i < |s| && IsParen(s[i]) then SkipParens(s, i + 1) else i
  }

  /** The smallest `m`, not below `lo`, such that `s[m..j]` is all parentheses. */
  function BackParens(s: string, lo: nat, j: nat): (m: nat)
    requires lo <= j <= |s|
    ensures lo <= m <= j
    ensures forall k :: m <= k < j ==> IsParen(s[k])
    ensures m > lo ==> !IsParen(s[m - 1])
    decreases j
  {
    if j > lo && IsParen(s[j - 1]) then BackParens(s, lo, j - 1) else j
  }

  /** Removes every leading and every trailing parenthesis: the result is a
      slice of `s` that neither starts nor ends with one, and everything cut
      away is a parenthesis. */
  function TrimParens(s: string): (r: string)
    ensures exists i, j ::
              && 0 <= i <= j <= |s|
              && r == s[i..j]
              && (forall k :: 0 <= k < i ==> IsParen(s[k]))
              && (forall k :: j <= k < |s| ==> IsParen(s[k]))
    ensures |r| > 0 ==> !IsParen(r[0]) && !IsParen(r[|r| - 1])
  {
    var i := SkipParens(s, 0);
    var j := BackParens(s, i, |s|);
    s[i..j]
  }

  /** Trimming `(x)` gives back `x` when `x` neither starts nor ends with a
      parenthesis. */
  lemma TrimWrapped(x: string)
    requires |x| > 0 ==> !IsParen(x[0]) && !IsParen(x[|x| - 1])
    ensures TrimParens("(" + x + ")") == x
  {
    var s := "(" + x + ")";
    assert s[0] == '(' && s[|s| - 1] == ')';
    if |x| == 0 {
      assert SkipParens(s, 1) == 2;
      assert SkipParens(s, 0) == 2;
    } else {
      assert s[1] == x[0] && s[|s| - 2] == x[|x| - 1];
      assert SkipParens(s, 1) == 1;
      assert SkipParens(s, 0) == 1;
      assert BackParens(s, 1, |s| - 1) == |s| - 1;
      assert BackParens(s, 1, |s|) == |s| - 1;
      assert s[1..|s| - 1] == x;
    }
  }
}
