/**
  The PHP string built-ins the namespace script relies on: trim(), strtoupper(),
  strtolower() and str_replace() in its scalar and array forms.  A `char` stands
  for one byte of a PHP string; case mapping is the ASCII-only mapping PHP uses.
 */
module PhpStrings {
  import opened Wrappers

  // ---------------------------------------------------------------- trim()

  /** The characters trim() strips when given no character list:
      space, tab, line feed, carriage return, NUL and vertical tab. */
  predicate IsTrimChar(ch: char) {
    ch == ' ' || ch == '\t' || ch == '\n' || ch == '\r' || ch == '\0' || ch == '\U{B}'
  }

  ghost predicate AllTrimChars(s: string) {
    forall i :: 0 <= i < |s| ==> IsTrimChar(s[i])
  }

  /** The number of trim characters `s` starts with. */
  function LeadingTrim(s: string): (n: nat)
    ensures n <= |s|
    ensures forall i :: 0 <= i < n ==> IsTrimChar(s[i])
    ensures n < |s| ==> !IsTrimChar(s[n])
    decreases |s|
  {
    if s != [] && IsTrimChar(s[0]) then 1 + LeadingTrim(s[1..]) else 0
  }
  /** The number of trim characters `s` ends with. */
  function TrailingTrim(s: string): (n: nat)
    ensures n <= |s|
    ensures forall i :: |s| - n <= i < |s| ==> IsTrimChar(s[i])
    ensures n < |s| ==> !IsTrimChar(s[|s| - 1 - n])
    decreases |s|
  {
    if s != [] && IsTrimChar(s[|s| - 1]) then 1 + TrailingTrim(s[..|s| - 1]) else 0
  }
  /** trim($s): the leading and then the trailing trim characters stripped. */
  function Trim(s: string): string {
    var l := s[LeadingTrim(s)..];
    l[..|l| - TrailingTrim(l)]
  }
  /** Every string is its trimmed form wrapped in trim characters. */
  lemma TrimSplits(s: string) returns (x: string, y: string)
    ensures s == x + Trim(s) + y
    ensures AllTrimChars(x) && AllTrimChars(y)
  {
    var a := LeadingTrim(s);
    var l := s[a..];
    var b := TrailingTrim(l);
    x, y := s[..a], l[|l| - b..];
    forall i | 0 <= i < |x| ensures IsTrimChar(x[i]) {
      assert x[i] == s[i];
    }
    forall i | 0 <= i < |y| ensures IsTrimChar(y[i]) {
      assert y[i] == l[|l| - b + i];
    }
    assert l[..|l| - b] == Trim(s);
    SplitAt(s, a);
    SplitAt(l, |l| - b);
  }

  /** The trimmed form neither starts nor ends with a trim character. */
  lemma TrimEnds(s: string)
    ensures Trim(s) != [] ==> !IsTrimChar(Trim(s)[0]) && !IsTrimChar(Trim(s)[|Trim(s)| - 1])
  {
    var a := LeadingTrim(s);
    var l := s[a..];
    var b := TrailingTrim(l);
    var m := l[..|l| - b];
    assert m == Trim(s);
    if m != [] {
      assert m[0] == l[0] == s[a];
      assert m[|m| - 1] == l[|l| - 1 - b];
    }
  }

  lemma SplitAt(s: string, k: nat)
    requires k <= |s|
    ensures s == s[..k] + s[k..]
  {
  }

  /** Conversely, stripping trim characters around a core that neither
      starts nor ends with one gives back exactly that core. */
  lemma TrimUnique(x: string, m: string, y: string)
    requires AllTrimChars(x) && AllTrimChars(y)
    requires m != [] ==> !IsTrimChar(m[0]) && !IsTrimChar(m[|m| - 1])
    ensures Trim(x + m + y) == m
  {
    var s := x + m + y;
    var a := LeadingTrim(s);
    if m == [] {
      assert AllTrimChars(s);
      assert a == |s|;
    } else {
      assert s[|x|] == m[0];
      assert a == |x|;
      var l := s[a..];
      assert l == m + y;
      var b := TrailingTrim(l);
      assert l[|m| - 1] == m[|m| - 1];
      assert b == |y|;
    }
  }

  /** A text that neither starts nor ends with a trim character is its own trimmed form. */
  lemma TrimTrimmed(u: string)
    requires u != [] ==> !IsTrimChar(u[0]) && !IsTrimChar(u[|u| - 1])
    ensures Trim(u) == u
  {
    TrimUnique([], u, []);
    assert [] + u + [] == u;
  }

  // ------------------------------------------------- strtoupper / strtolower

  predicate IsLowerAscii(ch: char) { 'a' <= ch <= 'z' }

  predicate IsUpperAscii(ch: char) { 'A' <= ch <= 'Z' }

  function UpperChar(ch: char): (u: char)
    ensures !IsLowerAscii(u)
    ensures IsLowerAscii(ch) ==> IsUpperAscii(u) && u as int == ch as int - 32
    ensures !IsLowerAscii(ch) ==> u == ch
  {
    if IsLowerAscii(ch) then (ch as int - 32) as char else ch
  }

  function LowerChar(ch: char): (l: char)
    ensures !IsUpperAscii(l)
    ensures IsUpperAscii(ch) ==> IsLowerAscii(l) && l as int == ch as int + 32
    ensures !IsUpperAscii(ch) ==> l == ch
  {
    if IsUpperAscii(ch) then (ch as int + 32) as char else ch
  }

  /** strtoupper($s): ASCII letters mapped, every other byte kept. */
  function Upper(s: string): string {
    seq(|s|, i requires 0 <= i < |s| => UpperChar(s[i]))
  }

  /** strtolower($s). */
  function Lower(s: string): string {
    seq(|s|, i requires 0 <= i < |s| => LowerChar(s[i]))
  }

  /** strtoupper keeps the length, leaves no lower-case letter and touches
      nothing but lower-case letters; applying it twice changes nothing more. */
  lemma UpperProperties(s: string)
    ensures |Upper(s)| == |s|
    ensures forall i :: 0 <= i < |s| ==> !IsLowerAscii(Upper(s)[i])
    ensures forall i :: 0 <= i < |s| && !IsLowerAscii(s[i]) ==> Upper(s)[i] == s[i]
    ensures Upper(Upper(s)) == Upper(s)
  {
  }

  /** Lower-casing an upper-cased string is the same as lower-casing the original. */
  lemma LowerOfUpper(s: string)
    ensures Lower(Upper(s)) == Lower(s)
  {
  }

  // ------------------------------------------------------------ occurrences

  /** `f` occurs in `s` at position `i`. */
  predicate MatchAt(s: string, f: string, i: nat) {
    i + |f| <= |s| && s[i..i + |f|] == f
  }

  ghost predicate Occurs(f: string, s: string) {
    exists i: nat :: MatchAt(s, f, i)
  }

  ghost predicate NoneOccur(fs: seq<string>, s: string) {
    forall i :: 0 <= i < |fs| ==> !Occurs(fs[i], s)
  }

  lemma MatchAtShift(s: string, f: string)
    requires s != []
    ensures forall j: nat :: j >= 1 ==> (MatchAt(s, f, j) <==> MatchAt(s[1..], f, j - 1))
    ensures MatchAt(s, f, 0) <==> |f| <= |s| && s[..|f|] == f
  {
    forall j: nat | j >= 1 ensures MatchAt(s, f, j) <==> MatchAt(s[1..], f, j - 1) {
      if j + |f| <= |s| {
        assert s[1..][j - 1..j - 1 + |f|] == s[j..j + |f|];
      }
    }
  }

  /** The leftmost position at which `f` occurs in `s`, as strpos() finds it. */
  function FirstMatch(s: string, f: string): (r: Option<nat>)
    ensures r.Some? ==> r.value + |f| <= |s|
    decreases |s|
  {
    if |s| < |f| then None
    else if s[..|f|] == f then Some(0)
    else
      match FirstMatch(s[1..], f)
      case None => None
      case Some(k) => Some(k + 1)
  }

  /** FirstMatch finds an occurrence with none before it, and finds none
      only when there is none. */
  lemma {:induction false} FirstMatchSpec(s: string, f: string)
    ensures FirstMatch(s, f).Some? ==>
      MatchAt(s, f, FirstMatch(s, f).value) && forall j: nat :: j < FirstMatch(s, f).value ==> !MatchAt(s, f, j)
    ensures FirstMatch(s, f).None? ==> forall j: nat :: !MatchAt(s, f, j)
    decreases |s|
  {
    if |s| >= |f| && s[..|f|] != f {
      MatchAtShift(s, f);
      FirstMatchSpec(s[1..], f);
    }
  }

  /** A text cannot contain `f` when the first character of `f` appears at
      none of the positions where an occurrence could start. */
  lemma AbsentByHead(s: string, f: string)
    requires f != []
    requires forall i :: 0 <= i <= |s| - |f| ==> s[i] != f[0]
    ensures !Occurs(f, s)
  {
    forall i: nat ensures !MatchAt(s, f, i) {
      if i + |f| <= |s| {
        assert s[i..i + |f|][0] == s[i];
      }
    }
  }

  /** Whatever occurs inside an occurring string occurs too. */
  lemma OccursInside(a: string, f: string, b: string, s: string)
    requires Occurs(a + f + b, s)
    ensures Occurs(f, s)
  {
    var w := a + f + b;
    var i: nat :| MatchAt(s, w, i);
    assert s[i..i + |w|] == w;
    forall k | 0 <= k < |f| ensures s[i + |a|..i + |a| + |f|][k] == f[k] {
      assert s[i + |a| + k] == s[i..i + |w|][|a| + k] == w[|a| + k];
    }
    assert s[i + |a|..i + |a| + |f|] == f;
    assert MatchAt(s, f, i + |a|);
  }

  // ---------------------------------------------------- str_replace (scalar)

  /** str_replace($f, $t, $s) with a non-empty search string: the subject is
      scanned left to right; at a match the replacement is emitted and the
      scan resumes after the matched text, so replaced text is never
      rescanned. */
  function Scan(s: string, f: string, t: string): string
    requires f != []
    decreases |s|
  {
    if |s| < |f| then s
    else if s[..|f|] == f then t + Scan(s[|f|..], f, t)
    else [s[0]] + Scan(s[1..], f, t)
  }

  /** str_replace($f, $t, $s); an empty search string leaves the subject as is. */
  function ReplaceAll(s: string, f: string, t: string): string {
    if f == [] then s else Scan(s, f, t)
  }

  /** str_replace is characterised by the leftmost occurrence of the search
      string: the text before it is kept byte for byte, the occurrence
      becomes the replacement and the rest of the subject -- and only the
      rest -- is processed again. */
  lemma ReplaceAllAt(s: string, f: string, t: string, k: nat)
    requires f != [] && FirstMatch(s, f) == Some(k)
    ensures s[k..k + |f|] == f
    ensures ReplaceAll(s, f, t) == s[..k] + t + ReplaceAll(s[k + |f|..], f, t)
  {
    FirstMatchSpec(s, f);
    ScanLeftmost(s, f, t, k);
  }

  /** With no occurrence of the search string the subject is returned unchanged. */
  lemma ReplaceAllNoMatch(s: string, f: string, t: string)
    requires f != [] && FirstMatch(s, f).None?
    ensures ReplaceAll(s, f, t) == s
  {
    ScanNoMatch(s, f, t);
  }

  lemma {:induction false} ScanNoMatch(s: string, f: string, t: string)
    requires f != [] && FirstMatch(s, f).None?
    ensures Scan(s, f, t) == s
    decreases |s|
  {
    if |f| <= |s| {
      ScanSkip(s, f, t);
      ScanNoMatch(s[1..], f, t);
      ConsTail(s);
    }
  }

  lemma {:induction false} ScanLeftmost(s: string, f: string, t: string, k: nat)
    requires f != [] && FirstMatch(s, f) == Some(k)
    ensures Scan(s, f, t) == s[..k] + t + Scan(s[k + |f|..], f, t)
    decreases |s|, 1
  {
    if s[..|f|] == f {
      assert k == 0;
      ScanAtMatch(s, f, t);
      SlicesAtZero(s, k, |f|);
    } else {
      ScanSkip(s, f, t);
      ScanLeftmostStep(s, f, t, k);
    }
  }

  /** ScanLeftmost when the search string does not start the subject. */
  lemma {:induction false} ScanLeftmostStep(s: string, f: string, t: string, k: nat)
    requires f != [] && 1 <= k && k + |f| <= |s| && FirstMatch(s[1..], f) == Some(k - 1)
    requires Scan(s, f, t) == [s[0]] + Scan(s[1..], f, t)
    ensures Scan(s, f, t) == s[..k] + t + Scan(s[k + |f|..], f, t)
    decreases |s|, 0
  {
    ScanLeftmost(s[1..], f, t, k - 1);
    assert Scan(s[1..], f, t) == s[1..][..k - 1] + t + Scan(s[1..][k - 1 + |f|..], f, t);
    ScanFromTail(s, f, t, k);
  }

  /** The scan at a position where the search string starts. */
  lemma ScanAtMatch(s: string, f: string, t: string)
    requires f != [] && |f| <= |s| && s[..|f|] == f
    ensures Scan(s, f, t) == t + Scan(s[|f|..], f, t)
  {
  }

  lemma SlicesAtZero<T>(s: seq<T>, k: nat, n: nat)
    requires k == 0 && n <= |s|
    ensures s[..k] == [] && s[k + n..] == s[n..]
  {
  }

  /** One step of the scan past a position where the search string does not start. */
  lemma ScanSkip(s: string, f: string, t: string)
    requires f != [] && |f| <= |s| && s[..|f|] != f
    ensures Scan(s, f, t) == [s[0]] + Scan(s[1..], f, t)
    ensures FirstMatch(s, f) == match FirstMatch(s[1..], f) case None => None case Some(k) => Some(k + 1)
  {
  }

  /** The inductive step of ScanLeftmost. */
  lemma ScanFromTail(s: string, f: string, t: string, k: nat)
    requires f != [] && s != [] && 1 <= k && k + |f| <= |s|
    requires Scan(s, f, t) == [s[0]] + Scan(s[1..], f, t)
    requires Scan(s[1..], f, t) == s[1..][..k - 1] + t + Scan(s[1..][k - 1 + |f|..], f, t)
    ensures Scan(s, f, t) == s[..k] + t + Scan(s[k + |f|..], f, t)
  {
    TailSlices(s, k - 1, |f|);
    ConsConcat(Scan(s, f, t), Scan(s[1..], f, t), s[0], s[1..][..k - 1], s[..k], t, Scan(s[k + |f|..], f, t));
  }

  /** Slices of the tail of a text, as slices of the text. */
  lemma TailSlices(s: string, j: nat, n: nat)
    requires j + 1 + n <= |s|
    ensures s[1..][j + n..] == s[j + 1 + n..]
    ensures [s[0]] + s[1..][..j] == s[..j + 1]
  {
  }

  lemma ConsTail(s: string)
    requires s != []
    ensures [s[0]] + s[1..] == s
  {
  }

  lemma AppendAssoc5<T>(a: seq<T>, b: seq<T>, c: seq<T>, d: seq<T>, e: seq<T>, x: seq<T>)
    ensures a + (b + c + d + e) + x == a + b + c + d + e + x
  {
  }

  lemma AppendAssoc4<T>(a: seq<T>, b: seq<T>, c: seq<T>, d: seq<T>, x: seq<T>)
    ensures a + (b + c + d) + x == a + b + c + d + x
  {
  }

  lemma AppendAssoc<T>(a: seq<T>, b: seq<T>, c: seq<T>, d: seq<T>)
    ensures a + (b + c) + d == a + b + c + d
  {
  }

  /** Re-associating a text that is one character followed by three parts. */
  lemma ConsConcat(r: string, rt: string, h: char, u: string, w: string, x: string, y: string)
    requires r == [h] + rt && rt == u + x + y && [h] + u == w
    ensures r == w + x + y
  {
  }

  /** A subject in which the search string does not occur is returned unchanged. */
  lemma ReplaceAllUnchanged(s: string, f: string, t: string)
    requires !Occurs(f, s)
    ensures ReplaceAll(s, f, t) == s
  {
    if f != [] {
      FirstMatchSpec(s, f);
      ReplaceAllNoMatch(s, f, t);
    }
  }

  // ----------------------------------------------------- str_replace (arrays)

  /** str_replace($froms, $tos, $s): the pairs are applied in order, each to the
      output of the previous one; a search string without a replacement entry
      is replaced by the empty string. */
  function ReplaceEach(s: string, froms: seq<string>, tos: seq<string>): string
    decreases |froms|
  {
    if froms == [] then s
    else
      var to := if tos != [] then tos[0] else "";
      ReplaceEach(ReplaceAll(s, froms[0], to), froms[1..], if tos != [] then tos[1..] else [])
  }

  /** The array form is a left fold: replacing with two lists in a row is
      the same as replacing with their concatenation. */
  lemma {:induction false} ReplaceEachAppend(s: string, f1: seq<string>, t1: seq<string>, f2: seq<string>, t2: seq<string>)
    requires |f1| == |t1|
    ensures ReplaceEach(s, f1 + f2, t1 + t2) == ReplaceEach(ReplaceEach(s, f1, t1), f2, t2)
    decreases |f1|
  {
    if f1 == [] {
      assert f1 + f2 == f2 && t1 + t2 == t2;
    } else {
      assert (f1 + f2)[1..] == f1[1..] + f2 && (t1 + t2)[1..] == t1[1..] + t2;
      ReplaceEachAppend(ReplaceAll(s, f1[0], t1[0]), f1[1..], t1[1..], f2, t2);
    }
  }

  /** A subject containing none of the search strings is returned unchanged. */
  lemma {:induction false} ReplaceEachUnchanged(s: string, froms: seq<string>, tos: seq<string>)
    requires NoneOccur(froms, s)
    ensures ReplaceEach(s, froms, tos) == s
    decreases |froms|
  {
    if froms != [] {
      var to := if tos != [] then tos[0] else "";
      ReplaceAllUnchanged(s, froms[0], to);
      assert NoneOccur(froms[1..], s) by {
        forall i | 0 <= i < |froms[1..]| ensures !Occurs(froms[1..][i], s) {
          assert froms[1..][i] == froms[i + 1];
        }
      }
      ReplaceEachUnchanged(s, froms[1..], if tos != [] then tos[1..] else []);
    }
  }
}
