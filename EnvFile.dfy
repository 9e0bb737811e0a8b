/**
  The `.env` text parser (`parse` in l3xenv.js): split the text into lines,
  match each line against `^\s*([\w.-]+)\s*=\s*(.*)?\s*$`, strip one pair of
  surrounding quotes, expand `${name}` references in one left-to-right pass,
  and record the entry; a later line with the same key overwrites an earlier one.
 */
module EnvFile {
  import opened Ascii
  import opened Wrappers

  // ---------------------------------------------------------------------------
  // Lines

  /** Drops one carriage return at the end of a piece. */
  function DropCarriageReturn(s: string): string {
    if s != [] && s[|s| - 1] == '\r' then s[..|s| - 1] else s
  }

  /**
    `src.split(/\r?\n/)`: the text is cut at every line feed, and a carriage
    return directly before a line feed belongs to the separator.
   */
  function SplitLines(src: string): (lines: seq<string>)
    ensures |lines| == Count(src, '\n') + 1
    ensures forall i :: 0 <= i < |lines| ==> '\n' !in lines[i]
  {
    var pieces := Split(src, '\n');
    seq(|pieces|, i requires 0 <= i < |pieces| =>
      if i < |pieces| - 1 then DropCarriageReturn(pieces[i]) else pieces[i])
  }

  lemma {:induction false} SplitNoChar(s: string, sep: char, c: char)
    requires c !in s
    ensures forall i :: 0 <= i < |Split(s, sep)| ==> c !in Split(s, sep)[i]
  {
    if s != [] {
      SplitNoChar(s[1..], sep, c);
      assert s == [s[0]] + s[1..];
    }
  }

  /** Without carriage returns, joining the lines with line feeds gives the text back. */
  lemma SplitLinesJoin(src: string)
    requires '\r' !in src
    ensures Join(SplitLines(src), '\n') == src
  {
    var pieces := Split(src, '\n');
    SplitNoChar(src, '\n', '\r');
    assert SplitLines(src) == pieces;
    JoinSplit(src, '\n');
  }

  /** A carriage return put at the end of every line but the last, as a CRLF file has it. */
  function WithCarriageReturns(xs: seq<string>): (ys: seq<string>)
    ensures |ys| == |xs|
  {
    seq(|xs|, i requires 0 <= i < |xs| => if i < |xs| - 1 then xs[i] + ['\r'] else xs[i])
  }

  /** Lines without line feeds, joined with CRLF, split back into the same lines. */
  lemma SplitLinesCrlf(xs: seq<string>)
    requires |xs| >= 1 && forall i :: 0 <= i < |xs| ==> '\n' !in xs[i]
    ensures SplitLines(Join(WithCarriageReturns(xs), '\n')) == xs
  {
    var ys := WithCarriageReturns(xs);
    assert forall i :: 0 <= i < |ys| ==> '\n' !in ys[i];
    SplitJoin(ys, '\n');
    var lines := SplitLines(Join(ys, '\n'));
    forall i | 0 <= i < |xs| - 1
      ensures lines[i] == xs[i]
    {
      assert ys[i][..|ys[i]| - 1] == xs[i];
    }
  }

  /** Lines without line feeds and without a carriage return at the end of any but the last. */
  predicate PlainLines(xs: seq<string>) {
    && |xs| >= 1
    && (forall i :: 0 <= i < |xs| ==> '\n' !in xs[i])
    && (forall i :: 0 <= i < |xs| - 1 ==> xs[i] == [] || xs[i][|xs[i]| - 1] != '\r')
  }

  /** Such lines joined with LF split back into the same lines. */
  lemma SplitLinesLf(xs: seq<string>)
    requires PlainLines(xs)
    ensures SplitLines(Join(xs, '\n')) == xs
  {
    SplitJoin(xs, '\n');
  }

  /** A CRLF file parses to the same entries as the LF file with the same lines. */
  lemma CrlfParsesAsLf(xs: seq<string>, env: map<string, string>)
    requires PlainLines(xs)
    ensures ParseText(Join(WithCarriageReturns(xs), '\n'), env) == ParseText(Join(xs, '\n'), env)
  {
    SplitLinesCrlf(xs);
    SplitLinesLf(xs);
  }

  /** Text without a line feed is a single line. */
  lemma SplitLinesSingle(src: string)
    requires '\n' !in src
    ensures SplitLines(src) == [src]
  {
    SplitSingle(src, '\n');
  }

  // ---------------------------------------------------------------------------
  // Matching one line

  /**
    Where the parts of a line matching `^\s*([\w.-]+)\s*=\s*(.*)?\s*$` lie:
    group 1 (the key) is `line[keyStart..keyEnd]`, the `=` is at `equals`, and
    group 2 (the value) is `line[valueStart..valueEnd]`.
   */
  datatype Groups = Groups(keyStart: nat, keyEnd: nat, equals: nat, valueStart: nat, valueEnd: nat)

  /**
    The regular expression matches `line` with these group boundaries, in
    some way: each part has the right characters, whatever the quantifiers
    would pick.
   */
  ghost predicate Decomposes(line: string, g: Groups) {
    && Ordered(g, |line|)
    && line[g.equals] == '='
    && (forall k :: 0 <= k < g.keyStart ==> IsSpace(line[k]))
    && (forall k :: g.keyStart <= k < g.keyEnd ==> IsKeyChar(line[k]))
    && (forall k :: g.keyEnd <= k < g.equals ==> IsSpace(line[k]))
    && (forall k :: g.equals < k < g.valueStart ==> IsSpace(line[k]))
    && (forall k :: g.valueStart <= k < g.valueEnd ==> !IsLineTerminator(line[k]))
    && (forall k :: g.valueEnd <= k < |line| ==> IsSpace(line[k]))
  }

  /**
    The regular expression matches `line` with these group boundaries, and
    they are the ones the greedy quantifiers pick: the whitespace after `=` is
    as long as possible, so a non-empty value does not start with a space and
    an empty value leaves nothing behind it; `(.*)` runs up to a line
    terminator or the end.
   */
  ghost predicate MatchesAt(line: string, g: Groups) {
    && Decomposes(line, g)
    && (if g.valueStart == g.valueEnd then g.valueEnd == |line| else !IsSpace(line[g.valueStart]))
    && (g.valueEnd == |line| || IsLineTerminator(line[g.valueEnd]))
  }

  /** The groups follow each other in the line: a non-empty key, then `=`, then the value. */
  predicate Ordered(g: Groups, n: nat) {
    g.keyStart < g.keyEnd <= g.equals < g.valueStart <= g.valueEnd <= n
  }

  /** The line pattern as a recogniser: the group boundaries, or `None` when the line does not match. */
  function Match(line: string): (r: Option<Groups>)
    ensures r.Some? ==> Ordered(r.value, |line|)
  {
    var a := Skip(line, 0, Space);
    var b := Skip(line, a, KeyChar);
    var c := Skip(line, b, Space);
    if a == b || c == |line| || line[c] != '=' then None
    else
      var d := Skip(line, c + 1, Space);
      var e := Skip(line, d, NonTerminator);
      if Skip(line, e, Space) == |line| then Some(Groups(a, b, c, d, e)) else None
  }

  /** A group layout Match finds is a match of the line pattern, with the greedy boundaries. */
  lemma MatchSound(line: string)
    ensures Match(line).Some? ==> MatchesAt(line, Match(line).value)
  {
    if Match(line).Some? {
      var g := Match(line).value;
      assert Skip(line, 0, Space) == g.keyStart && Skip(line, g.keyStart, KeyChar) == g.keyEnd;
      assert Skip(line, g.keyEnd, Space) == g.equals && line[g.equals] == '=';
      assert Skip(line, g.equals + 1, Space) == g.valueStart;
      assert Skip(line, g.valueStart, NonTerminator) == g.valueEnd && Skip(line, g.valueEnd, Space) == |line|;
      RunsMatch(line, g);
    }
  }

  /**
    A line the regular expression accepts in any way, greedy or not, is
    accepted by Match.
   */
  lemma DecomposesAccepted(line: string, g: Groups)
    requires Decomposes(line, g)
    ensures Match(line).Some?
  {
    KeyRuns(line, g);
    var d := Skip(line, g.equals + 1, Space);
    var e := Skip(line, d, NonTerminator);
    TailSpaces(line, g, d, e);
    SkipAt(line, e, |line|, Space);
    ScansAccept(line, g, d, e);
  }

  /** Match succeeds once the scans find a key, the `=` and only whitespace after the value. */
  lemma ScansAccept(line: string, g: Groups, d: nat, e: nat)
    requires Ordered(g, |line|) && line[g.equals] == '='
    requires Skip(line, 0, Space) == g.keyStart && Skip(line, g.keyStart, KeyChar) == g.keyEnd
    requires Skip(line, g.keyEnd, Space) == g.equals
    requires d == Skip(line, g.equals + 1, Space) && e == Skip(line, d, NonTerminator)
    requires Skip(line, e, Space) == |line|
    ensures Match(line).Some?
  {
  }

  /** After the scans past `=` and through the value, only whitespace is left. */
  lemma TailSpaces(line: string, g: Groups, d: nat, e: nat)
    requires Decomposes(line, g)
    requires d == Skip(line, g.equals + 1, Space) && e == Skip(line, d, NonTerminator)
    ensures forall k :: e <= k < |line| ==> IsSpace(line[k])
  {
    assert g.valueStart <= d;
    if d <= g.valueEnd {
      assert g.valueEnd <= e;
    }
  }

  /** Match succeeds exactly on the lines the regular expression accepts. */
  lemma MatchIff(line: string)
    ensures Match(line).Some? <==> exists g :: Decomposes(line, g)
  {
    MatchSound(line);
    if g :| Decomposes(line, g) {
      DecomposesAccepted(line, g);
    }
  }

  /** Groups whose runs end where the scans stop are a match of the line pattern. */
  lemma RunsMatch(line: string, g: Groups)
    requires Ordered(g, |line|) && line[g.equals] == '='
    requires Skip(line, 0, Space) == g.keyStart && Skip(line, g.keyStart, KeyChar) == g.keyEnd
    requires Skip(line, g.keyEnd, Space) == g.equals && Skip(line, g.equals + 1, Space) == g.valueStart
    requires Skip(line, g.valueStart, NonTerminator) == g.valueEnd && Skip(line, g.valueEnd, Space) == |line|
    ensures MatchesAt(line, g)
  {
  }

  /** Any way the pattern matches is the one Match finds: the recogniser is complete and the match unique. */
  lemma MatchComplete(line: string, g: Groups)
    requires MatchesAt(line, g)
    ensures Match(line) == Some(g)
  {
    KeyRuns(line, g);
    ValueRuns(line, g);
    MatchRuns(line, g.keyStart, g.keyEnd, g.equals, g.valueStart, g.valueEnd);
  }

  /** The scans up to `=` stop at the key's boundaries. */
  lemma KeyRuns(line: string, g: Groups)
    requires Decomposes(line, g)
    ensures Skip(line, 0, Space) == g.keyStart && Skip(line, g.keyStart, KeyChar) == g.keyEnd
    ensures Skip(line, g.keyEnd, Space) == g.equals
  {
    SkipAt(line, 0, g.keyStart, Space);
    SkipAt(line, g.keyStart, g.keyEnd, KeyChar);
    SkipAt(line, g.keyEnd, g.equals, Space);
  }

  /** The scans after `=` stop at the value's boundaries. */
  lemma ValueRuns(line: string, g: Groups)
    requires MatchesAt(line, g)
    ensures Skip(line, g.equals + 1, Space) == g.valueStart
    ensures Skip(line, g.valueStart, NonTerminator) == g.valueEnd && Skip(line, g.valueEnd, Space) == |line|
  {
    SkipAt(line, g.equals + 1, g.valueStart, Space);
    SkipAt(line, g.valueStart, g.valueEnd, NonTerminator);
    SkipAt(line, g.valueEnd, |line|, Space);
  }

  /** Match finds the groups whose runs end where the scans stop. */
  lemma MatchRuns(line: string, a: nat, b: nat, c: nat, d: nat, e: nat)
    requires a < b <= c < d <= e <= |line| && line[c] == '='
    requires Skip(line, 0, Space) == a && Skip(line, a, KeyChar) == b
    requires Skip(line, b, Space) == c && Skip(line, c + 1, Space) == d
    requires Skip(line, d, NonTerminator) == e && Skip(line, e, Space) == |line|
    ensures Match(line) == Some(Groups(a, b, c, d, e))
  {
  }


  // ---------------------------------------------------------------------------
  // Quotes

  predicate IsQuote(c: char) {
    c == '"' || c == '\''
  }

  /** Starts and ends with the same quote character; a lone quote character counts. */
  predicate IsQuoted(v: string) {
    |v| >= 1 && IsQuote(v[0]) && v[|v| - 1] == v[0]
  }

  /** Removes one pair of surrounding quotes; `slice(1, -1)` of a lone quote is empty. */
  function StripQuotes(v: string): (r: string)
    ensures IsQuoted(v) && |v| >= 2 ==> v == [v[0]] + r + [v[0]]
    ensures IsQuoted(v) && |v| == 1 ==> r == ""
    ensures !IsQuoted(v) ==> r == v
  {
    if IsQuoted(v) then (if |v| >= 2 then v[1..|v| - 1] else "") else v
  }

  /** Quoting a value and stripping the quotes gives it back unchanged, escapes and inner quotes included. */
  lemma StripQuotesRoundTrip(q: char, v: string)
    requires IsQuote(q)
    ensures StripQuotes([q] + v + [q]) == v
  {
    assert ([q] + v + [q])[1..|v| + 1] == v;
  }

  // ---------------------------------------------------------------------------
  // Interpolation

  /** If a `${key}` reference starts at position `i` of `t`, its key. */
  function ReferenceAt(t: string, i: nat): (r: Option<string>)
    requires i <= |t|
    ensures r.Some? ==> IsKey(r.value) && i + |r.value| + 3 <= |t|
    ensures r.Some? ==> t[i] == '$' && t[i + 1] == '{' && t[i + 2..i + 2 + |r.value|] == r.value
    ensures r.Some? ==> t[i + 2 + |r.value|] == '}'
  {
    if i + 1 < |t| && t[i] == '$' && t[i + 1] == '{' then
      var j := Skip(t, i + 2, KeyChar);
      if j > i + 2 && j < |t| && t[j] == '}' then Some(t[i + 2..j]) else None
    else None
  }

  /** The text has no `${key}` reference. */
  predicate ReferenceFree(t: string) {
    forall i :: 0 <= i <= |t| ==> ReferenceAt(t, i).None?
  }

  /**
    What `${k}` stands for: `process.env[k] || obj[k] || ''`, so an empty
    environment value falls through to the value parsed earlier in this pass.
   */
  function Resolve(k: string, env: map<string, string>, obj: map<string, string>): string {
    if k in env && env[k] != "" then env[k] else if k in obj then obj[k] else ""
  }

  /** The replacement pass from position `i` on; replaced text is never scanned again. */
  function ExpandFrom(t: string, i: nat, env: map<string, string>, obj: map<string, string>): string
    requires i <= |t|
    decreases |t| - i
  {
    if i == |t| then ""
    else
      match ReferenceAt(t, i)
      case Some(k) => Resolve(k, env, obj) + ExpandFrom(t, i + |k| + 3, env, obj)
      case None => [t[i]] + ExpandFrom(t, i + 1, env, obj)
  }

  /** `t.replace(/\$\{([\w.-]+)\}/g, ...)`. */
  function Interpolate(t: string, env: map<string, string>, obj: map<string, string>): string {
    ExpandFrom(t, 0, env, obj)
  }

  lemma {:induction false} ExpandFromReferenceFree(t: string, i: nat, env: map<string, string>, obj: map<string, string>)
    requires i <= |t| && ReferenceFree(t)
    ensures ExpandFrom(t, i, env, obj) == t[i..]
    decreases |t| - i
  {
    if i < |t| {
      ExpandFromReferenceFree(t, i + 1, env, obj);
      assert t[i..] == [t[i]] + t[i + 1..];
    }
  }

  /** Text without a `${key}` reference comes out unchanged. */
  lemma InterpolateReferenceFree(t: string, env: map<string, string>, obj: map<string, string>)
    requires ReferenceFree(t)
    ensures Interpolate(t, env, obj) == t
  {
    ExpandFromReferenceFree(t, 0, env, obj);
  }

  /** Where a run ends depends only on the text from its start on. */
  lemma {:induction false} SkipSuffix(t: string, a: nat, u: string, b: nat, cls: CharClass)
    requires a <= |t| && b <= |u| && t[a..] == u[b..]
    ensures Skip(t, a, cls) - a == Skip(u, b, cls) - b
    decreases |t| - a
  {
    if a < |t| {
      assert t[a] == t[a..][0] && u[b] == u[b..][0];
      assert t[a + 1..] == t[a..][1..] && u[b + 1..] == u[b..][1..];
      SkipSuffix(t, a + 1, u, b + 1, cls);
    }
  }

  /** Equal suffixes agree at corresponding positions. */
  lemma SuffixAt(t: string, i: nat, u: string, j: nat, a: nat, c: nat)
    requires i <= a < |t| && j <= |u| && t[i..] == u[j..] && c - j == a - i
    ensures c < |u| && t[a] == u[c]
  {
    assert t[a] == t[i..][a - i];
    assert u[c] == u[j..][c - j];
  }

  /** Equal suffixes have equal suffixes from corresponding positions. */
  lemma SuffixTail(t: string, i: nat, u: string, j: nat, a: nat, c: nat)
    requires i <= a <= |t| && j <= |u| && t[i..] == u[j..] && c - j == a - i
    ensures c <= |u| && t[a..] == u[c..]
  {
    assert t[a..] == t[i..][a - i..];
    assert u[c..] == u[j..][c - j..];
  }

  /** Equal suffixes have equal slices between corresponding positions. */
  lemma SuffixSlice(t: string, i: nat, u: string, j: nat, a: nat, b: nat, c: nat, d: nat)
    requires i <= a <= b <= |t| && j <= |u| && t[i..] == u[j..]
    requires c - j == a - i && d - j == b - i
    ensures c <= d <= |u| && t[a..b] == u[c..d]
  {
    var w := t[i..];
    assert forall m :: 0 <= m < b - a ==> t[a..b][m] == w[a - i + m];
    assert forall m :: 0 <= m < b - a ==> u[c..d][m] == w[a - i + m];
    assert t[a..b] == u[c..d];
  }

  /** Whether a reference starts at a position depends only on the text from there on. */
  lemma ReferenceSuffix(t: string, i: nat, u: string, j: nat)
    requires i <= |t| && j <= |u| && t[i..] == u[j..]
    ensures ReferenceAt(t, i) == ReferenceAt(u, j)
  {
    if i + 1 < |t| {
      SuffixAt(t, i, u, j, i, j);
      SuffixAt(t, i, u, j, i + 1, j + 1);
      if t[i] == '$' && t[i + 1] == '{' {
        SuffixTail(t, i, u, j, i + 2, j + 2);
        SkipSuffix(t, i + 2, u, j + 2, KeyChar);
        var e := Skip(t, i + 2, KeyChar);
        var f := Skip(u, j + 2, KeyChar);
        if e < |t| {
          SuffixAt(t, i, u, j, e, f);
        }
        SuffixSlice(t, i, u, j, i + 2, e, j + 2, f);
      }
    }
  }

  /** One step of the replacement pass at a position where the text has no reference. */
  lemma ExpandCopy(t: string, i: nat, env: map<string, string>, obj: map<string, string>)
    requires i < |t| && ReferenceAt(t, i).None?
    ensures ExpandFrom(t, i, env, obj) == [t[i]] + ExpandFrom(t, i + 1, env, obj)
  {
  }

  /** One step of the replacement pass at a position where a reference starts. */
  lemma ExpandReplace(t: string, i: nat, k: string, a: nat, env: map<string, string>, obj: map<string, string>)
    requires i < |t| && ReferenceAt(t, i) == Some(k) && a == i + |k| + 3
    ensures ExpandFrom(t, i, env, obj) == Resolve(k, env, obj) + ExpandFrom(t, a, env, obj)
  {
  }

  /** Two passes that copy the same character continue alike. */
  lemma CopyStep(t: string, i: nat, u: string, j: nat, env: map<string, string>, obj: map<string, string>)
    requires i < |t| && j < |u| && t[i] == u[j] && ReferenceAt(t, i).None? && ReferenceAt(u, j).None?
    requires ExpandFrom(t, i + 1, env, obj) == ExpandFrom(u, j + 1, env, obj)
    ensures ExpandFrom(t, i, env, obj) == ExpandFrom(u, j, env, obj)
  {
    ExpandCopy(t, i, env, obj);
    ExpandCopy(u, j, env, obj);
  }

  /** Two passes that replace the same reference continue alike. */
  lemma ReplaceStep(t: string, i: nat, u: string, j: nat, k: string, a: nat, c: nat, env: map<string, string>, obj: map<string, string>)
    requires i < |t| && j < |u| && ReferenceAt(t, i) == Some(k) && ReferenceAt(u, j) == Some(k)
    requires a == i + |k| + 3 && c == j + |k| + 3
    requires ExpandFrom(t, a, env, obj) == ExpandFrom(u, c, env, obj)
    ensures ExpandFrom(t, i, env, obj) == ExpandFrom(u, j, env, obj)
  {
    ExpandReplace(t, i, k, a, env, obj);
    ExpandReplace(u, j, k, c, env, obj);
  }

  /** The replacement pass from a position depends only on the text from there on. */
  lemma {:induction false} ExpandAgree(t: string, i: nat, u: string, j: nat, env: map<string, string>, obj: map<string, string>)
    requires i <= |t| && j <= |u| && t[i..] == u[j..]
    ensures ExpandFrom(t, i, env, obj) == ExpandFrom(u, j, env, obj)
    decreases |t| - i
  {
    if i < |t| {
      ReferenceSuffix(t, i, u, j);
      match ReferenceAt(t, i)
      case Some(k) =>
        var a := i + |k| + 3;
        var c := j + |k| + 3;
        SuffixTail(t, i, u, j, a, c);
        ExpandAgree(t, a, u, c, env, obj);
        ReplaceStep(t, i, u, j, k, a, c, env, obj);
      case None =>
        SuffixAt(t, i, u, j, i, j);
        SuffixTail(t, i, u, j, i + 1, j + 1);
        ExpandAgree(t, i + 1, u, j + 1, env, obj);
        CopyStep(t, i, u, j, env, obj);
    }
  }

  lemma ExpandShift(x: string, y: string, j: nat, env: map<string, string>, obj: map<string, string>)
    requires j <= |y|
    ensures ExpandFrom(x + y, |x| + j, env, obj) == ExpandFrom(y, j, env, obj)
  {
    assert (x + y)[|x| + j..] == y[j..];
    ExpandAgree(x + y, |x| + j, y, j, env, obj);
  }

  /** Skipping inside the first half stops before a second half that starts outside the class. */
  lemma SkipPrefix(x: string, y: string, i: nat, cls: CharClass)
    requires i <= |x| && y != [] && !InClass(y[0], cls)
    ensures Skip(x + y, i, cls) == Skip(x, i, cls)
  {
    var r := Skip(x, i, cls);
    assert forall k :: i <= k < r ==> (x + y)[k] == x[k];
    assert (x + y)[r] == if r < |x| then x[r] else y[0];
    SkipAt(x + y, i, r, cls);
  }

  /** No reference can start in a reference-free prefix that is followed by a `$`. */
  lemma NoReferenceBeforeDollar(x: string, y: string, i: nat)
    requires ReferenceFree(x) && y != [] && y[0] == '$' && i < |x|
    ensures ReferenceAt(x + y, i).None?
  {
    var t := x + y;
    assert ReferenceAt(x, i).None?;
    if i + 1 < |x| {
      assert t[i] == x[i] && t[i + 1] == x[i + 1];
      SkipPrefix(x, y, i + 2, KeyChar);
      var j := Skip(x, i + 2, KeyChar);
      assert t[j] == if j < |x| then x[j] else '$';
      assert j < |x| ==> t[i + 2..j] == x[i + 2..j];
    } else {
      assert i + 1 < |t| ==> t[i + 1] == '$';
    }
  }

  /** One copied character extends a copied run by one. */
  lemma CopyRunStep(t: string, i: nat, e: nat, env: map<string, string>, obj: map<string, string>)
    requires i < e <= |t| && ReferenceAt(t, i).None?
    requires ExpandFrom(t, i + 1, env, obj) == t[i + 1..e] + ExpandFrom(t, e, env, obj)
    ensures ExpandFrom(t, i, env, obj) == t[i..e] + ExpandFrom(t, e, env, obj)
  {
    ExpandCopy(t, i, env, obj);
    ConsSlice(t, i, e, ExpandFrom(t, e, env, obj));
  }

  /** A slice with a tail is its first character in front of the rest. */
  lemma ConsSlice(t: string, i: nat, e: nat, tail: string)
    requires i < e <= |t|
    ensures t[i..e] + tail == [t[i]] + (t[i + 1..e] + tail)
  {
    assert t[i..e] == [t[i]] + t[i + 1..e];
  }

  /** Positions where no reference starts are copied unchanged. */
  lemma {:induction false} CopyRun(t: string, i: nat, e: nat, env: map<string, string>, obj: map<string, string>)
    requires i <= e <= |t|
    requires forall m :: i <= m < e ==> ReferenceAt(t, m).None?
    ensures ExpandFrom(t, i, env, obj) == t[i..e] + ExpandFrom(t, e, env, obj)
    decreases e - i
  {
    if i < e {
      CopyRun(t, i + 1, e, env, obj);
      CopyRunStep(t, i, e, env, obj);
    } else {
      assert t[i..e] == [];
    }
  }

  lemma ExpandPrefix(x: string, y: string, i: nat, env: map<string, string>, obj: map<string, string>)
    requires ReferenceFree(x) && y != [] && y[0] == '$' && i <= |x|
    ensures ExpandFrom(x + y, i, env, obj) == x[i..] + ExpandFrom(x + y, |x|, env, obj)
  {
    var t := x + y;
    forall m | i <= m < |x|
      ensures ReferenceAt(t, m).None?
    {
      NoReferenceBeforeDollar(x, y, m);
    }
    CopyRun(t, i, |x|, env, obj);
    assert t[i..|x|] == x[i..];
  }

  /** A reference at the start of a text is recognised, with its key. */
  lemma ReferenceAtStart(k: string, b: string)
    requires IsKey(k)
    ensures ReferenceAt("${" + k + "}" + b, 0) == Some(k)
  {
    var r := "${" + k + "}" + b;
    assert forall m :: 0 <= m < |k| ==> r[2 + m] == k[m];
    assert r[2 + |k|] == '}';
    SkipAt(r, 2, 2 + |k|, KeyChar);
    assert r[2..2 + |k|] == k;
  }

  /** A text that starts with a reference expands to its resolution followed by the expansion of the rest. */
  lemma InterpolateLeadingReference(k: string, b: string, env: map<string, string>, obj: map<string, string>)
    requires IsKey(k)
    ensures Interpolate("${" + k + "}" + b, env, obj) == Resolve(k, env, obj) + Interpolate(b, env, obj)
  {
    var token := "${" + k + "}";
    ReferenceAtStart(k, b);
    ExpandShift(token, b, 0, env, obj);
  }

  /**
    One left-to-right pass: reference-free text is copied, the first reference
    is replaced by what its key resolves to, inserted as is (it is not scanned
    for further references), and the pass goes on after the closing brace.
   */
  lemma InterpolateReference(a: string, k: string, b: string, env: map<string, string>, obj: map<string, string>)
    requires ReferenceFree(a) && IsKey(k)
    ensures Interpolate(a + ("${" + k + "}" + b), env, obj) == a + Resolve(k, env, obj) + Interpolate(b, env, obj)
  {
    var r := "${" + k + "}" + b;
    ExpandPrefix(a, r, 0, env, obj);
    ExpandShift(a, r, 0, env, obj);
    InterpolateLeadingReference(k, b, env, obj);
  }

  // ---------------------------------------------------------------------------
  // Parsing

  /** `match[1]` and `match[2] || ''` of a matching line. */
  datatype Captures = Captures(key: string, value: string)

  function CapturesOf(line: string): Option<Captures> {
    match Match(line)
    case None => None
    case Some(g) => Some(Captures(line[g.keyStart..g.keyEnd], line[g.valueStart..g.valueEnd]))
  }

  /** One turn of the `forEach` body: a matching line sets its key; any other line changes nothing. */
  function Step(line: string, env: map<string, string>, obj: map<string, string>): map<string, string> {
    match CapturesOf(line)
    case None => obj
    case Some(c) => obj[c.key := Interpolate(StripQuotes(c.value), env, obj)]
  }

  /** The entries the lines produce, in order, starting from `obj`. */
  function ParseLines(lines: seq<string>, env: map<string, string>, obj: map<string, string>): map<string, string> {
    if lines == [] then obj else ParseLines(lines[1..], env, Step(lines[0], env, obj))
  }

  /** What `parse(src)` returns while the environment store holds `env`. */
  function ParseText(src: string, env: map<string, string>): map<string, string> {
    ParseLines(SplitLines(src), env, map[])
  }

  /** `parse`: fills the object line by line; `env` is the environment store read during interpolation. */
  method Parse(src: string, env: map<string, string>) returns (obj: map<string, string>)
    ensures obj == ParseText(src, env)
  {
    var lines := SplitLines(src);
    obj := map[];
    var i := 0;
    while i < |lines|
      invariant 0 <= i <= |lines|
      invariant ParseLines(lines[i..], env, obj) == ParseText(src, env)
    {
      var line := lines[i];
      var m := Match(line);
      if m.Some? {
        var key := line[m.value.keyStart..m.value.keyEnd];
        var val := line[m.value.valueStart..m.value.valueEnd];
        val := StripQuotes(val);
        val := Interpolate(val, env, obj);
        obj := obj[key := val];
      }
      assert lines[i..][1..] == lines[i + 1..];
      i := i + 1;
    }
  }

  /** The keys of the lines that match, in no particular order. */
  function MatchedKeys(lines: seq<string>): set<string> {
    if lines == [] then {}
    else
      (match CapturesOf(lines[0]) case None => {} case Some(c) => {c.key}) + MatchedKeys(lines[1..])
  }

  lemma {:induction false} ParseAppend(x: seq<string>, y: seq<string>, env: map<string, string>, obj: map<string, string>)
    ensures ParseLines(x + y, env, obj) == ParseLines(y, env, ParseLines(x, env, obj))
  {
    if x != [] {
      assert (x + y)[1..] == x[1..] + y;
      ParseAppend(x[1..], y, env, Step(x[0], env, obj));
    } else {
      assert x + y == y;
    }
  }

  /** The parsed keys are the starting keys plus the keys of the matching lines: nothing else enters, nothing leaves. */
  lemma {:induction false} ParseKeys(lines: seq<string>, env: map<string, string>, obj: map<string, string>)
    ensures ParseLines(lines, env, obj).Keys == obj.Keys + MatchedKeys(lines)
  {
    if lines != [] {
      ParseKeys(lines[1..], env, Step(lines[0], env, obj));
    }
  }

  /** A key that no line assigns keeps its starting value. */
  lemma {:induction false} ParseUntouched(lines: seq<string>, env: map<string, string>, obj: map<string, string>, k: string)
    requires k !in MatchedKeys(lines)
    ensures k in ParseLines(lines, env, obj) <==> k in obj
    ensures k in obj ==> ParseLines(lines, env, obj)[k] == obj[k]
  {
    if lines != [] {
      ParseUntouched(lines[1..], env, Step(lines[0], env, obj), k);
    }
  }

  /**
    The last line that assigns a key decides its value: the value of that line,
    unquoted and interpolated against what the lines before it produced.
   */
  lemma LastAssignmentWins(pre: seq<string>, line: string, post: seq<string>,
                           env: map<string, string>, obj: map<string, string>)
    requires CapturesOf(line).Some? && CapturesOf(line).value.key !in MatchedKeys(post)
    ensures CapturesOf(line).value.key in ParseLines(pre + [line] + post, env, obj)
    ensures var c := CapturesOf(line).value;
      ParseLines(pre + [line] + post, env, obj)[c.key]
        == Interpolate(StripQuotes(c.value), env, ParseLines(pre, env, obj))
  {
    var c := CapturesOf(line).value;
    ParseAppend(pre + [line], post, env, obj);
    ParseAppend(pre, [line], env, obj);
    var before := ParseLines(pre, env, obj);
    assert ParseLines([line], env, before) == Step(line, env, before);
    ParseUntouched(post, env, Step(line, env, before), c.key);
  }

  /** A line that does not match contributes nothing, wherever it stands. */
  lemma UnmatchedLineIgnored(pre: seq<string>, line: string, post: seq<string>,
                             env: map<string, string>, obj: map<string, string>)
    requires CapturesOf(line).None?
    ensures ParseLines(pre + [line] + post, env, obj) == ParseLines(pre + post, env, obj)
  {
    ParseAppend(pre + [line], post, env, obj);
    ParseAppend(pre, [line], env, obj);
    ParseAppend(pre, post, env, obj);
  }

  /** A line without `=` does not match. */
  lemma LineWithoutEquals(line: string)
    requires '=' !in line
    ensures CapturesOf(line).None?
  {
  }

  /**
    A line whose first non-space character cannot start a key (a blank line,
    `# comment`) does not match.
   */
  lemma LineWithoutKey(line: string, i: nat)
    requires i <= |line| && AllSpace(line[..i])
    requires i == |line| || (!IsSpace(line[i]) && !IsKeyChar(line[i]))
    ensures CapturesOf(line).None?
  {
    assert forall k :: 0 <= k < i ==> line[..i][k] == line[k];
    SkipAt(line, 0, i, Space);
    SkipAt(line, i, i, KeyChar);
  }

  /** The group boundaries of an assignment line built from its parts. */
  lemma AssignmentMatchesAt(lead: string, k: string, gap: string, ws: string, v: string)
    requires AllSpace(lead) && IsKey(k) && AllSpace(gap) && AllSpace(ws)
    requires NoLineTerminator(v) && (v == [] || !IsSpace(v[0]))
    ensures var line := lead + k + gap + "=" + ws + v;
      var c := |lead| + |k| + |gap|;
      MatchesAt(line, Groups(|lead|, |lead| + |k|, c, c + 1 + |ws|, |line|))
  {
    var line := lead + k + gap + "=" + ws + v;
    var a := |lead|;
    var b := a + |k|;
    var c := b + |gap|;
    var d := c + 1 + |ws|;
    assert forall m :: 0 <= m < a ==> line[m] == lead[m];
    assert forall m :: a <= m < b ==> line[m] == k[m - a];
    assert forall m :: b <= m < c ==> line[m] == gap[m - b];
    assert line[c] == '=';
    assert forall m :: c < m < d ==> line[m] == ws[m - c - 1];
    assert forall m :: d <= m < |line| ==> line[m] == v[m - d];
  }

  /** A line that matches at `g` captures the key and value groups of `g`. */
  lemma CapturesAt(line: string, g: Groups, k: string, v: string)
    requires MatchesAt(line, g)
    requires line[g.keyStart..g.keyEnd] == k && line[g.valueStart..g.valueEnd] == v
    ensures CapturesOf(line) == Some(Captures(k, v))
  {
    MatchComplete(line, g);
  }

  /** The key and the value sit where AssignmentMatchesAt puts their groups. */
  lemma AssignmentSlices(lead: string, k: string, gap: string, ws: string, v: string)
    ensures var line := lead + k + gap + "=" + ws + v;
      var d := |lead| + |k| + |gap| + 1 + |ws|;
      line[|lead|..|lead| + |k|] == k && line[d..|line|] == v
  {
    var head := lead + k + gap + "=" + ws;
    var line := head + v;
    SliceLeft(lead + k + gap + "=", ws + v, |lead|, |lead| + |k|);
    assert line == lead + k + gap + "=" + (ws + v);
    SliceLeft(lead + k + gap, "=", |lead|, |lead| + |k|);
    SliceLeft(lead + k, gap, |lead|, |lead| + |k|);
    SliceRight(lead, k);
    SliceRight(head, v);
  }

  /**
    An assignment line with any whitespace before the key and around `=`, and
    a value without line terminators that does not start with a space: the key
    and the value (trailing spaces included) are captured.
   */
  lemma CapturesAssignment(lead: string, k: string, gap: string, ws: string, v: string)
    requires AllSpace(lead) && IsKey(k) && AllSpace(gap) && AllSpace(ws)
    requires NoLineTerminator(v) && (v == [] || !IsSpace(v[0]))
    ensures CapturesOf(lead + k + gap + "=" + ws + v) == Some(Captures(k, v))
  {
    var line := lead + k + gap + "=" + ws + v;
    var c := |lead| + |k| + |gap|;
    AssignmentMatchesAt(lead, k, gap, ws, v);
    AssignmentSlices(lead, k, gap, ws, v);
    CapturesAt(line, Groups(|lead|, |lead| + |k|, c, c + 1 + |ws|, |line|), k, v);
  }

  /** A slice inside the first part of a concatenation. */
  lemma SliceLeft(x: string, y: string, a: nat, b: nat)
    requires a <= b <= |x|
    ensures (x + y)[a..b] == x[a..b]
  {
  }

  /** The second part of a concatenation. */
  lemma SliceRight(x: string, y: string)
    ensures (x + y)[|x|..] == y && (x + y)[|x|..|x + y|] == y
  {
  }

  /** The group boundaries of a plain `KEY=value` line. */
  lemma PlainMatchesAt(k: string, v: string)
    requires IsKey(k) && NoLineTerminator(v) && (v == [] || !IsSpace(v[0]))
    ensures var line := k + "=" + v;
      MatchesAt(line, Groups(0, |k|, |k|, |k| + 1, |line|))
  {
    var line := k + "=" + v;
    assert forall m :: 0 <= m < |k| ==> line[m] == k[m];
    assert line[|k|] == '=';
    assert forall m :: |k| < m < |line| ==> line[m] == v[m - |k| - 1];
  }

  /** The key and the value sit where PlainMatchesAt puts their groups. */
  lemma PlainSlices(k: string, v: string)
    ensures var line := k + "=" + v;
      line[0..|k|] == k && line[|k| + 1..|line|] == v
  {
    SliceLeft(k, "=" + v, 0, |k|);
    assert k + "=" + v == k + ("=" + v);
    SliceRight(k + "=", v);
  }

  /** An assignment line sets its key to its value, unquoted and interpolated. */
  lemma StepAssignment(k: string, v: string, env: map<string, string>, obj: map<string, string>)
    requires IsKey(k) && NoLineTerminator(v) && (v == [] || !IsSpace(v[0]))
    ensures Step(k + "=" + v, env, obj) == obj[k := Interpolate(StripQuotes(v), env, obj)]
  {
    PlainCaptures(k, v);
  }

  /** A plain `KEY=value` line captures its key and its value. */
  lemma PlainCaptures(k: string, v: string)
    requires IsKey(k) && NoLineTerminator(v) && (v == [] || !IsSpace(v[0]))
    ensures CapturesOf(k + "=" + v) == Some(Captures(k, v))
  {
    var line := k + "=" + v;
    PlainMatchesAt(k, v);
    PlainSlices(k, v);
    CapturesAt(line, Groups(0, |k|, |k|, |k| + 1, |line|), k, v);
  }

  /** A text of one assignment line parses to that one entry. */
  lemma ParseSingleLine(k: string, v: string, env: map<string, string>)
    requires IsKey(k) && NoLineTerminator(v) && (v == [] || !IsSpace(v[0]))
    ensures ParseText(k + "=" + v, env) == map[k := Interpolate(StripQuotes(v), env, map[])]
  {
    var line := k + "=" + v;
    assert forall m :: 0 <= m < |line| ==> line[m] != '\n';
    SplitLinesSingle(line);
    StepAssignment(k, v, env, map[]);
    assert ParseLines([line], env, map[]) == Step(line, env, map[]);
  }

  /**
    Round trip: a single `KEY=value` line whose value has no leading space, no
    line terminator, no `${...}` reference and is not quoted parses to exactly
    that key and that value.
   */
  lemma ParseRoundTrip(k: string, v: string, env: map<string, string>)
    requires IsKey(k) && NoLineTerminator(v) && (v == [] || !IsSpace(v[0]))
    requires ReferenceFree(v) && !IsQuoted(v)
    ensures ParseText(k + "=" + v, env) == map[k := v]
  {
    ParseSingleLine(k, v, env);
    InterpolateReferenceFree(v, env, map[]);
  }

  /**
    Round trip through quotes: a quoted value keeps its inner text exactly,
    leading and trailing spaces and the other quote character included.
   */
  lemma QuotedRoundTrip(k: string, q: char, v: string, env: map<string, string>)
    requires IsKey(k) && IsQuote(q) && NoLineTerminator(v) && ReferenceFree(v)
    ensures ParseText(k + "=" + ([q] + v + [q]), env) == map[k := v]
  {
    var qv := [q] + v + [q];
    assert forall m :: 0 <= m < |qv| ==> qv[m] == q || qv[m] == v[m - 1];
    ParseSingleLine(k, qv, env);
    StripQuotesRoundTrip(q, v);
    InterpolateReferenceFree(v, env, map[]);
  }

  /** A line `B=${A}` sets `B` to what the reference to `A` resolves to. */
  lemma StepReference(a: string, b: string, env: map<string, string>, obj: map<string, string>)
    requires IsKey(a) && IsKey(b)
    ensures Step(b + "=" + ("${" + a + "}"), env, obj) == obj[b := Resolve(a, env, obj)]
  {
    var ref := "${" + a + "}";
    assert forall m :: 0 <= m < |ref| ==> !IsLineTerminator(ref[m]);
    StepAssignment(b, ref, env, obj);
    assert StripQuotes(ref) == ref;
    InterpolateSingleReference(a, env, obj);
  }

  /** A value that is one reference interpolates to what the reference resolves to. */
  lemma InterpolateSingleReference(k: string, env: map<string, string>, obj: map<string, string>)
    requires IsKey(k)
    ensures Interpolate("${" + k + "}", env, obj) == Resolve(k, env, obj)
  {
    InterpolateLeadingReference(k, "", env, obj);
    assert "${" + k + "}" + "" == "${" + k + "}";
  }

  /** Two lines are parsed one after the other. */
  lemma ParseTwoLines(x: string, y: string, env: map<string, string>, obj: map<string, string>)
    ensures ParseLines([x, y], env, obj) == Step(y, env, Step(x, env, obj))
  {
    var mid := Step(x, env, obj);
    assert [x, y][1..] == [y];
    assert ParseLines([x, y], env, obj) == ParseLines([y], env, mid);
    assert [y][1..] == [];
    assert ParseLines([y], env, mid) == ParseLines([], env, Step(y, env, mid));
  }

  /**
    Same-pass back reference: in `A=v` followed by `B=${A}`, the reference
    takes the store's value of `A` when that is non-empty, and otherwise the
    value the first line produced.
   */
  lemma BackReference(a: string, v: string, b: string, env: map<string, string>)
    requires IsKey(a) && IsKey(b) && a != b
    requires NoLineTerminator(v) && (v == [] || !IsSpace(v[0])) && ReferenceFree(v) && !IsQuoted(v)
    ensures var parsed := ParseLines([a + "=" + v, b + "=" + ("${" + a + "}")], env, map[]);
      parsed == map[a := v, b := if a in env && env[a] != "" then env[a] else v]
  {
    var obj := map[a := v];
    StepAssignment(a, v, env, map[]);
    InterpolateReferenceFree(v, env, map[]);
    StepReference(a, b, env, obj);
    ParseTwoLines(a + "=" + v, b + "=" + ("${" + a + "}"), env, map[]);
  }
}
