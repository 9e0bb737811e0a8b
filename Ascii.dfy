/**
  Character classes and string helpers, restricted to ASCII.
  JavaScript's `\s`, `String.prototype.trim` and `toLowerCase` are modelled on
  the ASCII range only; `\w` in a regular expression without the `u` flag is
  exactly ASCII `[A-Za-z0-9_]`.
 */
module Ascii {

  /** `\s` and the characters `trim` removes: space, tab, LF, VT, FF, CR. */
  predicate IsSpace(c: char) {
    c == ' ' || c == '\t' || c == '\n' || c == '\U{B}' || c == '\U{C}' || c == '\r'
  }

  /** Characters that `.` in a regular expression does not match. */
  predicate IsLineTerminator(c: char) {
    c == '\n' || c == '\r'
  }

  /** `\w`: ASCII letters, digits and underscore. */
  predicate IsWordChar(c: char) {
    ('a' <= c <= 'z') || ('A' <= c <= 'Z') || ('0' <= c <= '9') || c == '_'
  }

  /** `[\w.-]`: the characters of a key. */
  predicate IsKeyChar(c: char) {
    IsWordChar(c) || c == '.' || c == '-'
  }

  predicate AllSpace(s: string) {
    forall i :: 0 <= i < |s| ==> IsSpace(s[i])
  }

  predicate IsKey(s: string) {
    |s| > 0 && forall i :: 0 <= i < |s| ==> IsKeyChar(s[i])
  }

  predicate NoLineTerminator(s: string) {
    forall i :: 0 <= i < |s| ==> !IsLineTerminator(s[i])
  }

  /** The runs the scanners look for: `\s` (also what `trim` removes), `[\w.-]` and `.`. */
  datatype CharClass = Space | KeyChar | NonTerminator

  predicate InClass(c: char, cls: CharClass) {
    match cls
    case Space => IsSpace(c)
    case KeyChar => IsKeyChar(c)
    case NonTerminator => !IsLineTerminator(c)
  }

  /** The end of the longest run of `cls` characters starting at `i`. */
  function Skip(s: string, i: nat, cls: CharClass): (r: nat)
    requires i <= |s|
    ensures i <= r <= |s|
    ensures forall k :: i <= k < r ==> InClass(s[k], cls)
    ensures r < |s| ==> !InClass(s[r], cls)
    decreases |s| - i
  {
    if i < |s| && InClass(s[i], cls) then Skip(s, i + 1, cls) else i
  }

  /** A run is maximal exactly where Skip stops. */
  lemma SkipAt(s: string, i: nat, j: nat, cls: CharClass)
    requires i <= j <= |s|
    requires forall k :: i <= k < j ==> InClass(s[k], cls)
    requires j == |s| || !InClass(s[j], cls)
    ensures Skip(s, i, cls) == j
  {
  }

  /** Where the run of whitespace ending at `j` starts: just after the last non-space before `j`. */
  function SpaceStart(s: string, j: nat): (r: nat)
    requires j <= |s|
    ensures r <= j
    ensures forall k :: r <= k < j ==> IsSpace(s[k])
    ensures r == 0 || !IsSpace(s[r - 1])
  {
    if j > 0 && IsSpace(s[j - 1]) then SpaceStart(s, j - 1) else j
  }

  /** Removes leading whitespace. */
  function TrimStart(s: string): string {
    s[Skip(s, 0, Space)..]
  }

  /** Removes trailing whitespace. */
  function TrimEnd(s: string): string {
    s[..SpaceStart(s, |s|)]
  }

  /** `String.prototype.trim`. */
  function Trim(s: string): string {
    TrimEnd(TrimStart(s))
  }

  /** A maximal run of whitespace up to `j` starts exactly where SpaceStart says. */
  lemma SpaceStartAt(s: string, j: nat, k: nat)
    requires k <= j <= |s|
    requires forall m :: k <= m < j ==> IsSpace(s[m])
    requires k == 0 || !IsSpace(s[k - 1])
    ensures SpaceStart(s, j) == k
  {
  }

  /** A string without whitespace at either end is its own trim. */
  lemma TrimUnpadded(s: string)
    requires s != [] && !IsSpace(s[0]) && !IsSpace(s[|s| - 1])
    ensures Trim(s) == s
  {
    SkipAt(s, 0, 0, Space);
    assert TrimStart(s) == s;
    SpaceStartAt(s, |s|, |s|);
  }

  /** Leading whitespace added in front is removed with the rest. */
  lemma TrimStartSpaces(a: string, s: string)
    requires AllSpace(a)
    ensures TrimStart(a + s) == TrimStart(s)
  {
    var p := Skip(s, 0, Space);
    var t := a + s;
    assert forall m :: |a| <= m < |t| ==> t[m] == s[m - |a|];
    SkipAt(t, 0, |a| + p, Space);
    assert t[|a| + p..] == s[p..];
  }

  /** Trailing whitespace added behind is removed with the rest. */
  lemma TrimEndSpaces(s: string, b: string)
    requires AllSpace(b)
    ensures TrimEnd(s + b) == TrimEnd(s)
  {
    var q := SpaceStart(s, |s|);
    var t := s + b;
    assert forall m :: |s| <= m < |t| ==> t[m] == b[m - |s|];
    SpaceStartAt(t, |t|, q);
    assert t[..q] == s[..q];
  }

  /** Text appended behind a string that is not all whitespace survives `TrimStart`. */
  lemma TrimStartAppend(s: string, b: string)
    requires TrimStart(s) != []
    ensures TrimStart(s + b) == TrimStart(s) + b
  {
    var p := Skip(s, 0, Space);
    var t := s + b;
    SkipAt(t, 0, p, Space);
    assert t[p..] == s[p..] + b;
  }

  /** Whitespace added around a string does not change what `trim` returns. */
  lemma TrimPadded(a: string, s: string, b: string)
    requires AllSpace(a) && AllSpace(b)
    ensures Trim(a + s + b) == Trim(s)
  {
    assert a + s + b == a + (s + b);
    TrimStartSpaces(a, s + b);
    if TrimStart(s) == [] {
      assert AllSpace(s);
      TrimStartSpaces(s, b);
      SkipAt(b, 0, |b|, Space);
      assert TrimStart(b) == [];
    } else {
      TrimStartAppend(s, b);
      TrimEndSpaces(TrimStart(s), b);
    }
  }

  /** Trimming twice is trimming once, and a trimmed string keeps only characters of the original. */
  lemma TrimTrimmed(s: string)
    ensures Trim(Trim(s)) == Trim(s)
    ensures forall c :: c in Trim(s) ==> c in s
  {
    var u := TrimStart(s);
    var t := Trim(s);
    if t != [] {
      var p := Skip(s, 0, Space);
      var q := SpaceStart(u, |u|);
      assert t[0] == u[0] == s[p];
      assert t[|t| - 1] == u[q - 1];
      TrimUnpadded(t);
    }
    assert forall c :: c in t ==> c in u;
    assert forall c :: c in u ==> c in s;
  }

  /** Lower-casing leaves whitespace whitespace and everything else not whitespace. */
  lemma LowerSpace(s: string)
    ensures forall m :: 0 <= m < |s| ==> (IsSpace(Lower(s)[m]) <==> IsSpace(s[m]))
  {
  }

  lemma LowerSlice(s: string, i: nat, j: nat)
    requires i <= j <= |s|
    ensures Lower(s)[i..j] == Lower(s[i..j])
  {
  }

  lemma LowerTrimStart(s: string)
    ensures Lower(TrimStart(s)) == TrimStart(Lower(s))
  {
    var p := Skip(s, 0, Space);
    LowerSpace(s);
    SkipAt(Lower(s), 0, p, Space);
    LowerSlice(s, p, |s|);
  }

  lemma LowerTrimEnd(s: string)
    ensures Lower(TrimEnd(s)) == TrimEnd(Lower(s))
  {
    var q := SpaceStart(s, |s|);
    LowerSpace(s);
    SpaceStartAt(Lower(s), |s|, q);
    LowerSlice(s, 0, q);
  }

  /** Lower-casing and trimming commute (case changes never turn a space into a non-space). */
  lemma LowerTrim(s: string)
    ensures Lower(Trim(s)) == Trim(Lower(s))
  {
    LowerTrimEnd(TrimStart(s));
    LowerTrimStart(s);
  }

  function LowerChar(c: char): char {
    if 'A' <= c <= 'Z' then (c as int - 'A' as int + 'a' as int) as char else c
  }

  /** `String.prototype.toLowerCase`. */
  function Lower(s: string): (r: string)
    ensures |r| == |s|
  {
    seq(|s|, i requires 0 <= i < |s| => LowerChar(s[i]))
  }

  /** Number of occurrences of `c` in `s`. */
  function Count(s: string, c: char): nat {
    if s == [] then 0 else (if s[0] == c then 1 else 0) + Count(s[1..], c)
  }

  /** `s.split(sep)` for a one-character separator: one piece more than there are separators. */
  function Split(s: string, sep: char): (r: seq<string>)
    ensures |r| == Count(s, sep) + 1
    ensures forall i :: 0 <= i < |r| ==> sep !in r[i]
  {
    if s == [] then [""]
    else
      var rest := Split(s[1..], sep);
      if s[0] == sep then [""] + rest else [[s[0]] + rest[0]] + rest[1..]
  }

  /** `xs.join(sep)` for a one-character separator. */
  function Join(xs: seq<string>, sep: char): string {
    if |xs| == 0 then ""
    else if |xs| == 1 then xs[0]
    else xs[0] + [sep] + Join(xs[1..], sep)
  }

  lemma {:induction false} JoinSplit(s: string, sep: char)
    ensures Join(Split(s, sep), sep) == s
  {
    if s != [] {
      JoinSplit(s[1..], sep);
      var rest := Split(s[1..], sep);
      if s[0] == sep {
        assert Split(s, sep) == [""] + rest;
        assert s == [sep] + s[1..];
      } else {
        var r := Split(s, sep);
        assert r == [[s[0]] + rest[0]] + rest[1..];
        if |rest| == 1 {
          assert s == [s[0]] + rest[0];
        } else {
          assert rest == [rest[0]] + rest[1..];
          assert Join(rest, sep) == rest[0] + [sep] + Join(rest[1..], sep);
          assert r[1..] == rest[1..];
        }
      }
    }
  }

  lemma {:induction false} SplitPiece(x: string, sep: char, rest: string)
    requires sep !in x
    ensures Split(x + [sep] + rest, sep) == [x] + Split(rest, sep)
  {
    if x == [] {
      assert x + [sep] + rest == [sep] + rest;
      assert ([sep] + rest)[1..] == rest;
    } else {
      assert (x + [sep] + rest)[1..] == x[1..] + [sep] + rest;
      SplitPiece(x[1..], sep, rest);
      assert [x[0]] + x[1..] == x;
    }
  }

  lemma {:induction false} SplitSingle(x: string, sep: char)
    requires sep !in x
    ensures Split(x, sep) == [x]
  {
    if x != [] {
      SplitSingle(x[1..], sep);
      assert [x[0]] + x[1..] == x;
    }
  }

  /** Splitting a joined list gives the list back when no piece contains the separator. */
  lemma {:induction false} SplitJoin(xs: seq<string>, sep: char)
    requires |xs| >= 1
    requires forall i :: 0 <= i < |xs| ==> sep !in xs[i]
    ensures Split(Join(xs, sep), sep) == xs
  {
    if |xs| == 1 {
      SplitSingle(xs[0], sep);
    } else {
      SplitJoin(xs[1..], sep);
      SplitPiece(xs[0], sep, Join(xs[1..], sep));
      assert xs == [xs[0]] + xs[1..];
    }
  }
}
