/**
  The one regular-expression rewrite the namespace script performs:
  preg_replace("|C(\s+)\*|", "PC\\1*", $s) for a class name C and a prefix P.
  Only this pattern shape is modelled: the literal C, a greedy run of one or
  more PCRE white-space characters captured as group 1, and a literal `*`.
  C is a plain identifier, so none of its characters is special to PCRE.
  The replacement string is expanded as preg_replace does, back-references
  included, because the prefix is inserted into it unescaped.
 */
module PcreVarPattern {
  import opened Wrappers
  import opened PhpStrings

  // ------------------------------------------------------- matching C(\s+)\*

  /** PCRE's \s without the UTF flag: space, tab, line feed, vertical tab,
      form feed and carriage return. */
  predicate IsPcreSpace(ch: char) {
    ch == ' ' || ch == '\t' || ch == '\n' || ch == '\U{B}' || ch == '\U{C}' || ch == '\r'
  }

  /** The length of the white-space run `s` starts with: what a greedy \s+ or \s* consumes. */
  function SpaceRun(s: string): (n: nat)
    ensures n <= |s|
    decreases |s|
  {
    if s != [] && IsPcreSpace(s[0]) then 1 + SpaceRun(s[1..]) else 0
  }

  /** The run is all white space and stops at the first character that is not. */
  lemma {:induction false} SpaceRunSpec(s: string)
    ensures forall i :: 0 <= i < SpaceRun(s) ==> IsPcreSpace(s[i])
    ensures SpaceRun(s) < |s| ==> !IsPcreSpace(s[SpaceRun(s)])
    decreases |s|
  {
    if s != [] && IsPcreSpace(s[0]) {
      SpaceRunSpec(s[1..]);
      assert forall i :: 1 <= i < |s| ==> s[1..][i - 1] == s[i];
    }
  }

  /** What PCRE means by "C(\s+)\* matches at the start of `s` with a group 1
      of length n", backtracking included. */
  ghost predicate PatternMatches(s: string, c: string, n: nat) {
    && 1 <= n
    && |c| + n < |s|
    && s[..|c|] == c
    && (forall i :: |c| <= i < |c| + n ==> IsPcreSpace(s[i]))
    && s[|c| + n] == '*'
  }

  /** The match of C(\s+)\* anchored at the start of `s`, as the length of
      the captured white space: C, then the greedy white-space run, which
      must be followed by `*`. */
  function VarMatch(s: string, c: string): (r: Option<nat>)
    ensures r.Some? ==> 1 <= r.value && |c| + r.value < |s|
  {
    if |c| <= |s| && s[..|c|] == c then
      var n := SpaceRun(s[|c|..]);
      if 1 <= n && |c| + n < |s| && s[|c| + n] == '*' then Some(n) else None
    else None
  }

  /** Greedy matching gives exactly PCRE's answer: backtracking into the
      white-space run can never find another match, because `*` is not white
      space, so the pattern matches with group 1 of length n if and only if
      VarMatch reports n. */
  lemma VarMatchIsPcre(s: string, c: string, n: nat)
    ensures VarMatch(s, c) == Some(n) <==> PatternMatches(s, c, n)
  {
    if |c| <= |s| && s[..|c|] == c {
      var rest := s[|c|..];
      var m := SpaceRun(rest);
      SpaceRunSpec(rest);
      assert forall i :: 0 <= i < |rest| ==> rest[i] == s[|c| + i];
      if PatternMatches(s, c, n) {
        assert forall i :: 0 <= i < n ==> IsPcreSpace(rest[i]) by {
          forall i | 0 <= i < n ensures IsPcreSpace(rest[i]) {
            assert IsPcreSpace(s[|c| + i]);
          }
        }
        assert !IsPcreSpace(rest[n]);
        assert m == n;
      }
    }
  }

  /** A match starts with an occurrence of C. */
  lemma VarMatchStartsWithName(s: string, c: string)
    ensures VarMatch(s, c).Some? ==> MatchAt(s, c, 0)
  {
    assert |c| <= |s| ==> s[0..|c|] == s[..|c|];
  }

  // ---------------------------------------------- the replacement template

  /** No character that preg_replace treats specially in a replacement. */
  ghost predicate Plain(s: string) {
    forall i :: 0 <= i < |s| ==> s[i] != '\\' && s[i] != '$'
  }

  predicate IsDigit(ch: char) { '0' <= ch <= '9' }

  function DigitValue(ch: char): nat
    requires IsDigit(ch)
  {
    ch as int - '0' as int
  }

  /** At a `\` or `$` of a replacement template, the back-reference it
      starts -- `\d`, `\dd`, `$d`, `$dd`, `${d}` or `${dd}` -- as the group
      number and the template length it spans; None when it starts none. A
      `\` or `$` followed by the end of the template or by NUL starts none. */
  function BackRef(tpl: string): (r: Option<(nat, nat)>)
    requires tpl != [] && (tpl[0] == '\\' || tpl[0] == '$')
    ensures r.Some? ==> 2 <= r.value.1 <= |tpl| && r.value.0 < 100
  {
    if |tpl| < 2 || tpl[1] == '\0' then None
    else
      var brace := tpl[0] == '$' && tpl[1] == '{';
      var i := if brace then 2 else 1;
      if i < |tpl| && IsDigit(tpl[i]) then
        var two := i + 1 < |tpl| && IsDigit(tpl[i + 1]);
        var n := if two then 10 * DigitValue(tpl[i]) + DigitValue(tpl[i + 1]) else DigitValue(tpl[i]);
        var j := if two then i + 2 else i + 1;
        if !brace then Some((n, j))
        else if j < |tpl| && tpl[j] == '}' then Some((n, j + 1))
        else None
      else None
  }

  /** The expansion of what is left of a replacement template, given the
      output `acc` produced so far and whether the last character copied
      literally was a backslash. A `\` or `$` right after such a backslash
      replaces it (the escape); a back-reference copies its group, or nothing
      for a group the match did not produce; anything else is copied. */
  function ExpandFrom(tpl: string, groups: seq<string>, acc: string, afterBackslash: bool): string
    requires afterBackslash ==> acc != []
    decreases |tpl|
  {
    if tpl == [] then acc
    else if (tpl[0] == '\\' || tpl[0] == '$') && afterBackslash then
      ExpandFrom(tpl[1..], groups, acc[..|acc| - 1] + [tpl[0]], false)
    else if (tpl[0] == '\\' || tpl[0] == '$') && BackRef(tpl).Some? then
      var n := BackRef(tpl).value.0;
      var len := BackRef(tpl).value.1;
      ExpandFrom(tpl[len..], groups, acc + (if n < |groups| then groups[n] else ""), false)
    else
      ExpandFrom(tpl[1..], groups, acc + [tpl[0]], tpl[0] == '\\')
  }

  /** The replacement for one match; `groups` holds the whole match and then each captured group. */
  function Expand(tpl: string, groups: seq<string>): string {
    ExpandFrom(tpl, groups, [], false)
  }

  /** Plain template text is copied as it is. */
  lemma {:induction false} ExpandPlainText(lit: string, rest: string, groups: seq<string>, acc: string, afterBackslash: bool)
    requires Plain(lit)
    requires afterBackslash ==> acc != []
    ensures ExpandFrom(lit + rest, groups, acc, afterBackslash)
         == ExpandFrom(rest, groups, acc + lit, afterBackslash && lit == [])
    decreases |lit|
  {
    if lit == [] {
      assert lit + rest == rest && acc + lit == acc;
    } else {
      assert (lit + rest)[0] == lit[0] && (lit + rest)[1..] == lit[1..] + rest;
      assert Plain(lit[1..]) by {
        forall i | 0 <= i < |lit[1..]| ensures lit[1..][i] != '\\' && lit[1..][i] != '$' {
          assert lit[1..][i] == lit[i + 1];
        }
      }
      ExpandPlainText(lit[1..], rest, groups, acc + [lit[0]], false);
      assert acc + [lit[0]] + lit[1..] == acc + lit;
    }
  }

  /** With a prefix and a class name free of `\` and `$`, the template
      "PC\\1*" expands to the prefix, the class name, the captured white
      space and `*`. */
  lemma ExpandVarTemplate(p: string, c: string, whole: string, space: string)
    requires Plain(p) && Plain(c)
    ensures Expand(p + c + "\\1*", [whole, space]) == p + c + space + "*"
  {
    var lit := p + c;
    assert Plain(lit) by {
      forall i | 0 <= i < |lit| ensures lit[i] != '\\' && lit[i] != '$' {
        if i < |p| { assert lit[i] == p[i]; } else { assert lit[i] == c[i - |p|]; }
      }
    }
    ExpandPlainText(lit, "\\1*", [whole, space], [], false);
    var tpl := "\\1*";
    assert BackRef(tpl) == Some((1, 2));
    assert tpl[2..] == "*";
    assert ExpandFrom(tpl, [whole, space], lit, false) == ExpandFrom("*", [whole, space], lit + space, false);
    assert "*"[1..] == [];
  }

  /** A prefix is not escaped before it goes into the template, so a prefix
      such as "$1" is read as a back-reference: the rewrite then puts the
      captured white space where the prefix should be. */
  lemma ExpandDollarPrefix(c: string, whole: string, space: string)
    requires Plain(c) && c != [] && !IsDigit(c[0])
    ensures Expand("$1" + c + "\\1*", [whole, space]) == space + c + space + "*"
  {
    var g := [whole, space];
    var rest := c + "\\1*";
    var tpl := "$1" + rest;
    assert tpl == "$1" + c + "\\1*";
    assert tpl[0] == '$' && tpl[1] == '1' && tpl[2] == c[0];
    assert BackRef(tpl) == Some((1, 2));
    assert tpl[2..] == rest;
    assert ExpandFrom(tpl, g, [], false) == ExpandFrom(rest, g, [] + space, false);
    assert [] + space == space;
    ExpandPlainText(c, "\\1*", g, space, false);
    var tail := "\\1*";
    assert BackRef(tail) == Some((1, 2));
    assert tail[2..] == "*";
    assert ExpandFrom(tail, g, space + c, false) == ExpandFrom("*", g, space + c + space, false);
    assert "*"[1..] == [];
  }

  /** A `\` in the prefix that starts neither a back-reference nor an
      escape is copied: the prefix "A\B" does reach the output as it is. */
  lemma ExpandBackslashLetterPrefix(c: string, whole: string, space: string)
    requires Plain(c)
    ensures Expand("A\\B" + c + "\\1*", [whole, space]) == "A\\B" + c + space + "*"
  {
    var g := [whole, space];
    var rest := c + "\\1*";
    var tpl := "A\\B" + rest;
    assert tpl == "A\\B" + c + "\\1*";
    assert tpl[0] == 'A' && tpl[1..] == "\\B" + rest;
    assert [] + [tpl[0]] == "A";
    assert ExpandFrom(tpl, g, [], false) == ExpandFrom("\\B" + rest, g, "A", false);
    var t1 := "\\B" + rest;
    assert t1[0] == '\\' && t1[1] == 'B' && t1[1..] == "B" + rest;
    assert BackRef(t1).None?;
    assert "A" + [t1[0]] == "A\\";
    assert ExpandFrom(t1, g, "A", false) == ExpandFrom("B" + rest, g, "A\\", true);
    var t2 := "B" + rest;
    assert t2[0] == 'B' && t2[1..] == rest;
    assert "A\\" + [t2[0]] == "A\\B";
    assert ExpandFrom(t2, g, "A\\", true) == ExpandFrom(rest, g, "A\\B", false);
    ExpandPlainText(c, "\\1*", g, "A\\B", false);
    var tail := "\\1*";
    assert BackRef(tail) == Some((1, 2));
    assert tail[2..] == "*";
    assert ExpandFrom(tail, g, "A\\B" + c, false) == ExpandFrom("*", g, "A\\B" + c + space, false);
    assert "*"[1..] == [];
  }

  // ------------------------------------------------------------ preg_replace

  /** The text that replaces the match `m` of C(\s+)\*: the replacement
      template expanded with the whole match as group 0 and the white space
      between C and `*` as group 1. */
  function Replacement(m: string, c: string, tpl: string): string
    requires |c| < |m|
  {
    Expand(tpl, [m, m[|c|..|m| - 1]])
  }

  /** preg_replace("|C(\s+)\*|", tpl, $s): every match, leftmost first
      and without overlap, is replaced by the expanded template; the scan
      resumes after the `*` of each match. */
  function ReplaceVar(s: string, c: string, tpl: string): string
    decreases |s|
  {
    if s == [] then []
    else
      match VarMatch(s, c)
      case Some(n) =>
        Replacement(s[..|c| + n + 1], c, tpl) + ReplaceVar(s[|c| + n + 1..], c, tpl)
      case None =>
        [s[0]] + ReplaceVar(s[1..], c, tpl)
  }

  /** The leftmost position at which C(\s+)\* matches. */
  function FirstVarMatch(s: string, c: string): (r: Option<nat>)
    ensures r.Some? ==> r.value < |s| && VarMatch(s[r.value..], c).Some?
    decreases |s|
  {
    if s == [] then None
    else if VarMatch(s, c).Some? then Some(0)
    else
      match FirstVarMatch(s[1..], c)
      case None => None
      case Some(k) =>
        assert s[1..][k..] == s[k + 1..];
        Some(k + 1)
  }

  /** FirstVarMatch finds a match with none before it, and finds none only
      when there is none. */
  lemma {:induction false} FirstVarMatchSpec(s: string, c: string)
    ensures FirstVarMatch(s, c).Some? ==>
      forall j :: 0 <= j < FirstVarMatch(s, c).value ==> VarMatch(s[j..], c).None?
    ensures FirstVarMatch(s, c).None? ==> forall j :: 0 <= j <= |s| ==> VarMatch(s[j..], c).None?
    decreases |s|
  {
    if s != [] && VarMatch(s, c).None? {
      FirstVarMatchSpec(s[1..], c);
      forall j | 1 <= j <= |s| ensures s[1..][j - 1..] == s[j..] { }
      assert s[0..] == s;
    }
  }

  /** Where a match of C(\s+)\* starting at `k` ends: just after its `*`. */
  function MatchEnd(s: string, c: string, k: nat): (e: nat)
    requires k < |s| && VarMatch(s[k..], c).Some?
    ensures k + |c| + 1 < e <= |s|
  {
    k + |c| + VarMatch(s[k..], c).value + 1
  }

  /** With no match the text is returned unchanged. */
  lemma {:induction false} ReplaceVarNoMatch(s: string, c: string, tpl: string)
    requires FirstVarMatch(s, c).None?
    ensures ReplaceVar(s, c, tpl) == s
    decreases |s|
  {
    if s != [] {
      ReplaceVarNoMatch(s[1..], c, tpl);
    }
  }

  /** Otherwise the rewrite is characterised by the leftmost match: the text
      before it is kept byte for byte, the match becomes the expanded
      template, and only the text after the match is rewritten again. */
  lemma {:induction false} ReplaceVarLeftmost(s: string, c: string, tpl: string, k: nat)
    requires FirstVarMatch(s, c) == Some(k)
    ensures ReplaceVar(s, c, tpl)
         == s[..k] + Replacement(s[k..MatchEnd(s, c, k)], c, tpl) + ReplaceVar(s[MatchEnd(s, c, k)..], c, tpl)
    decreases |s|, 1
  {
    if k == 0 {
      assert s[..0] == [] && s[0..] == s;
    } else {
      ReplaceVarLeftmostStep(s, c, tpl, k);
    }
  }

  /** ReplaceVarLeftmost when the leftmost match is not at the start. */
  lemma {:induction false} ReplaceVarLeftmostStep(s: string, c: string, tpl: string, k: nat)
    requires FirstVarMatch(s, c) == Some(k) && k > 0
    ensures ReplaceVar(s, c, tpl)
         == s[..k] + Replacement(s[k..MatchEnd(s, c, k)], c, tpl) + ReplaceVar(s[MatchEnd(s, c, k)..], c, tpl)
    decreases |s|, 0
  {
    FirstVarMatchTail(s, c, k);
    ReplaceVarLeftmost(s[1..], c, tpl, k - 1);
    LeftmostFromTail(s, c, tpl, k);
  }

  /** The inductive step of ReplaceVarLeftmost: the characterisation for the
      tail carries over to the whole text. */
  lemma LeftmostFromTail(s: string, c: string, tpl: string, k: nat)
    requires 0 < k < |s| && VarMatch(s, c).None? && VarMatch(s[k..], c).Some?
    requires s[1..][k - 1..] == s[k..]
    requires ReplaceVar(s[1..], c, tpl)
          == s[1..][..k - 1] + Replacement(s[1..][k - 1..MatchEnd(s[1..], c, k - 1)], c, tpl)
             + ReplaceVar(s[1..][MatchEnd(s[1..], c, k - 1)..], c, tpl)
    ensures ReplaceVar(s, c, tpl)
         == s[..k] + Replacement(s[k..MatchEnd(s, c, k)], c, tpl) + ReplaceVar(s[MatchEnd(s, c, k)..], c, tpl)
  {
    var e := MatchEnd(s, c, k);
    ReplaceVarSkip(s, c, tpl);
    TailRebase(s, c, tpl, k);
    SliceGlue(s, k, e);
    ConsConcat(ReplaceVar(s, c, tpl), ReplaceVar(s[1..], c, tpl), s[0], s[1..][..k - 1], s[..k],
               Replacement(s[k..e], c, tpl), ReplaceVar(s[e..], c, tpl));
  }

  /** The tail's characterisation, with its positions given in the whole text. */
  lemma TailRebase(s: string, c: string, tpl: string, k: nat)
    requires 0 < k < |s| && VarMatch(s[k..], c).Some?
    requires s[1..][k - 1..] == s[k..]
    requires ReplaceVar(s[1..], c, tpl)
          == s[1..][..k - 1] + Replacement(s[1..][k - 1..MatchEnd(s[1..], c, k - 1)], c, tpl)
             + ReplaceVar(s[1..][MatchEnd(s[1..], c, k - 1)..], c, tpl)
    ensures ReplaceVar(s[1..], c, tpl)
         == s[1..][..k - 1] + Replacement(s[k..MatchEnd(s, c, k)], c, tpl) + ReplaceVar(s[MatchEnd(s, c, k)..], c, tpl)
  {
    var e := MatchEnd(s, c, k);
    assert MatchEnd(s[1..], c, k - 1) == e - 1;
    SliceGlue(s, k, e);
  }

  /** One step of the scan past a position where nothing matches. */
  lemma ReplaceVarSkip(s: string, c: string, tpl: string)
    requires s != [] && VarMatch(s, c).None?
    ensures ReplaceVar(s, c, tpl) == [s[0]] + ReplaceVar(s[1..], c, tpl)
  {
  }

  /** A leftmost match after the first position is the leftmost match of
      the tail, one position earlier. */
  lemma FirstVarMatchTail(s: string, c: string, k: nat)
    requires FirstVarMatch(s, c) == Some(k) && k > 0
    ensures VarMatch(s, c).None?
    ensures FirstVarMatch(s[1..], c) == Some(k - 1)
    ensures MatchEnd(s[1..], c, k - 1) + 1 == MatchEnd(s, c, k)
  {
    assert s[1..][k - 1..] == s[k..];
  }

  lemma SliceGlue(s: string, k: nat, e: nat)
    requires 0 < k < e <= |s|
    ensures [s[0]] + s[1..][..k - 1] == s[..k]
    ensures s[1..][k - 1..e - 1] == s[k..e]
    ensures s[1..][e - 1..] == s[e..]
  {
  }

  /** The text of a match: C, then white space only, then `*`. */
  lemma MatchText(s: string, c: string, k: nat)
    requires k < |s| && VarMatch(s[k..], c).Some?
    ensures
      var e := MatchEnd(s, c, k);
      && s[k..e] == c + s[k + |c|..e - 1] + "*"
      && (forall i :: k + |c| <= i < e - 1 ==> IsPcreSpace(s[i]))
  {
    var t := s[k..];
    var n := VarMatch(t, c).value;
    var e := MatchEnd(s, c, k);
    VarMatchIsPcre(t, c, n);
    assert s[k..e] == t[..|c| + n + 1];
    assert t[..|c| + n + 1] == t[..|c|] + t[|c|..|c| + n] + [t[|c| + n]];
    assert t[|c|..|c| + n] == s[k + |c|..e - 1];
    forall i | k + |c| <= i < e - 1 ensures IsPcreSpace(s[i]) {
      assert s[i] == t[i - k];
    }
  }

  /** With a prefix free of `\` and `$`, the leftmost match -- C, one or more
      white-space characters, `*` -- gets the prefix inserted directly before
      C, its white space kept as it was. */
  lemma ReplaceVarInsertsPrefix(s: string, c: string, p: string, k: nat)
    requires Plain(p) && Plain(c)
    requires FirstVarMatch(s, c) == Some(k)
    ensures
      var e := MatchEnd(s, c, k);
      && s[k..e] == c + s[k + |c|..e - 1] + "*"
      && (forall i :: k + |c| <= i < e - 1 ==> IsPcreSpace(s[i]))
      && ReplaceVar(s, c, p + c + "\\1*") == s[..k] + p + s[k..e] + ReplaceVar(s[e..], c, p + c + "\\1*")
  {
    var e := MatchEnd(s, c, k);
    MatchText(s, c, k);
    MatchReplacement(s[k..e], c, p);
    LeftmostWithReplacement(s, c, p + c + "\\1*", k, p);
  }

  /** ReplaceVarLeftmost for a template that turns the leftmost match into
      `p` followed by the match itself. */
  lemma LeftmostWithReplacement(s: string, c: string, tpl: string, k: nat, p: string)
    requires FirstVarMatch(s, c) == Some(k)
    requires Replacement(s[k..MatchEnd(s, c, k)], c, tpl) == p + s[k..MatchEnd(s, c, k)]
    ensures ReplaceVar(s, c, tpl)
         == s[..k] + p + s[k..MatchEnd(s, c, k)] + ReplaceVar(s[MatchEnd(s, c, k)..], c, tpl)
  {
    var e := MatchEnd(s, c, k);
    ReplaceVarLeftmost(s, c, tpl, k);
    AppendAssoc(s[..k], p, s[k..e], ReplaceVar(s[e..], c, tpl));
  }

  /** A match of C(\s+)\* is replaced by the prefix followed by the match
      itself, once neither the prefix nor C holds `\` or `$`. */
  lemma MatchReplacement(m: string, c: string, p: string)
    requires Plain(p) && Plain(c) && |c| < |m|
    requires m == c + m[|c|..|m| - 1] + "*"
    ensures Replacement(m, c, p + c + "\\1*") == p + m
  {
    ExpandVarTemplate(p, c, m, m[|c|..|m| - 1]);
  }

  /** Text in which C does not occur is returned unchanged. */
  lemma {:induction false} ReplaceVarUnchanged(s: string, c: string, tpl: string)
    requires !Occurs(c, s)
    ensures ReplaceVar(s, c, tpl) == s
    decreases |s|
  {
    if s != [] {
      VarMatchStartsWithName(s, c);
      assert VarMatch(s, c).None?;
      assert !Occurs(c, s[1..]) by {
        MatchAtShift(s, c);
        forall j: nat ensures !MatchAt(s[1..], c, j) {
          assert !MatchAt(s, c, j + 1);
        }
      }
      ReplaceVarUnchanged(s[1..], c, tpl);
    }
  }
}
